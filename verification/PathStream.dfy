/** The stream inserter and extractor of a path. */
module PathStream {
  import opened PathText
  import opened PathPlain

  predicate IsSpace(c: char) {
    c in {' ', '\t', '\n', '\U{0B}', '\U{0C}', '\r'}
  }

  predicate NeedsEscape(c: char) {
    c == '"' || c == '\\'
  }

  function Escaped(s: string): string {
    if s == "" then "" else (if NeedsEscape(s[0]) then ['\\', s[0]] else [s[0]]) + Escaped(s[1..])
  }

  function Quoted(p: string): string {
    ['"'] + Escaped(p) + ['"']
  }

  /** `operator<<`. */
  method Insert(p: string) returns (os: string)
    ensures os == Quoted(p)
  {
    os := ['"'];
    for i := 0 to |p|
      invariant ['"'] + Escaped(p) == os + Escaped(p[i..])
    {
      assert p[i..][1..] == p[i + 1..];
      if NeedsEscape(p[i]) {
        os := os + ['\\'];
      }
      os := os + [p[i]];
    }
    os := os + ['"'];
  }

  function SkipSpace(input: string): string {
    if input != "" && IsSpace(input[0]) then SkipSpace(input[1..]) else input
  }

  /** The loop that reads up to the closing quote: the text and what is left of the stream. */
  function Unquote(input: string): (r: (string, string))
    decreases |input|
  {
    if input == "" then ("", "")
    else if input[0] == '\\' then
      if |input| == 1 then ("", "")
      else
        var (t, rest) := Unquote(input[2..]);
        ([input[1]] + t, rest)
    else if input[0] == '"' then ("", input[1..])
    else
      var (t, rest) := Unquote(input[1..]);
      ([input[0]] + t, rest)
  }

  /** `stream >> word`: blanks are skipped first. */
  function Word(input: string): (string, string) {
    UpToSpace(SkipSpace(input))
  }

  function UpToSpace(input: string): (string, string) {
    if input == "" || IsSpace(input[0]) then ("", input)
    else
      var (t, rest) := UpToSpace(input[1..]);
      ([input[0]] + t, rest)
  }

  /** `operator>>`, as the path and what is left of the stream. At the end of the stream nothing is read
      and the uninitialised character `junk` makes up the path. */
  function Extracted(input: string, junk: char): (string, string) {
    var s := SkipSpace(input);
    if s == "" then (PostProcess(if junk == '"' then "" else [junk]), "")
    else if s[0] == '"' then
      var (t, rest) := Unquote(s[1..]);
      (PostProcess(t), rest)
    else
      var (t, rest) := Word(s[1..]);
      (PostProcess([s[0]] + t), rest)
  }

  /** `operator>>`; `junk` is what the character holds before the first read. */
  method Extract(input: string, junk: char) returns (p: string, rest: string)
    ensures (p, rest) == Extracted(input, junk)
  {
    hide PostProcess, SkipSpace, Word;
    ReadNothing();
    assert [junk] + "" == [junk];
    rest := SkipSpace(input);
    var c := junk;
    if rest != "" {
      c, rest := rest[0], rest[1..];
    }
    var tmp := "";
    if c == '"' {
      tmp, rest := ReadQuoted(rest);
      p := PostProcess(tmp);
    } else {
      var w := Word(rest);
      tmp, rest := w.0, w.1;
      p := PostProcess([c] + tmp);
    }
  }

  lemma ReadNothing()
    ensures Unquote("") == ("", "") && Word("") == ("", "")
  {
  }

  /** The loop of `operator>>` behind an opening quote. */
  method ReadQuoted(input: string) returns (tmp: string, rest: string)
    ensures (tmp, rest) == Unquote(input)
  {
    tmp, rest := "", input;
    var good := true;
    while good
      invariant Unquote(input).0 == if good then tmp + Unquote(rest).0 else tmp
      invariant Unquote(input).1 == if good then Unquote(rest).1 else rest
      decreases good, |rest|
    {
      UnquoteStep(rest);
      hide Unquote;
      if rest == "" {
        good := false;
      } else {
        var c2 := rest[0];
        if c2 == '\\' {
          if |rest| == 1 {
            rest, good := "", false;
          } else {
            tmp := tmp + [rest[1]];
            rest := rest[2..];
          }
        } else if c2 == '"' {
          rest, good := rest[1..], false;
        } else {
          tmp := tmp + [c2];
          rest := rest[1..];
        }
      }
    }
  }

  lemma UnquoteStep(input: string)
    ensures input == "" || input == ['\\'] ==> Unquote(input) == ("", "")
    ensures |input| > 1 && input[0] == '\\' ==>
              Unquote(input) == ([input[1]] + Unquote(input[2..]).0, Unquote(input[2..]).1)
    ensures input != "" && input[0] == '"' ==> Unquote(input) == ("", input[1..])
    ensures input != "" && input[0] != '\\' && input[0] != '"' ==>
              Unquote(input) == ([input[0]] + Unquote(input[1..]).0, Unquote(input[1..]).1)
  {
  }

  lemma {:induction false} UnquoteOfEscaped(p: string, rest: string)
    ensures Unquote(Escaped(p) + ['"'] + rest) == (p, rest)
    decreases |p|
  {
    var input := Escaped(p) + ['"'] + rest;
    if p == "" {
      assert input[1..] == rest;
    } else {
      assert [p[0]] + p[1..] == p;
      var tail := Escaped(p[1..]) + ['"'] + rest;
      UnquoteOfEscaped(p[1..], rest);
      if NeedsEscape(p[0]) {
        assert input == ['\\', p[0]] + tail;
        assert input[2..] == tail;
      } else {
        assert input == [p[0]] + tail;
        assert input[1..] == tail;
      }
    }
  }

  /** Nothing but quotes and backslashes is escaped. */
  function Specials(s: string): nat {
    if s == "" then 0 else (if s[0] in {'"', '\\'} then 1 else 0) + Specials(s[1..])
  }

  lemma {:induction false} EscapedLength(s: string)
    ensures |Escaped(s)| == |s| + Specials(s)
  {
    if s != "" { EscapedLength(s[1..]); }
  }

  /** The text with a backslash before every character that is marked. */
  function Marked(p: string, marks: seq<bool>): string
    requires |marks| == |p|
  {
    if p == "" then "" else (if marks[0] then ['\\', p[0]] else [p[0]]) + Marked(p[1..], marks[1..])
  }

  /** Behind an opening quote, whichever characters are escaped, quotes and backslashes among them, the
      text is read up to the closing quote, or to the end of the stream when there is none. */
  lemma {:induction false} UnquoteOfMarked(p: string, marks: seq<bool>, rest: string)
    requires |marks| == |p| && forall i :: 0 <= i < |p| && NeedsEscape(p[i]) ==> marks[i]
    ensures Unquote(Marked(p, marks) + ['"'] + rest) == (p, rest)
    ensures Unquote(Marked(p, marks)) == (p, "")
    ensures Unquote(Marked(p, marks) + ['\\']) == (p, "")
    decreases |p|
  {
    hide Unquote;
    if p == "" {
      assert "" + ['"'] + rest == ['"'] + rest && (['"'] + rest)[1..] == rest;
      assert "" + ['\\'] == ['\\'];
      UnquoteStep(['"'] + rest);
      UnquoteStep("");
      UnquoteStep(['\\']);
    } else {
      UnquoteOfMarked(p[1..], marks[1..], rest);
      var tail := Marked(p[1..], marks[1..]);
      assert [p[0]] + p[1..] == p;
      UnquoteOne(p[0], marks[0], tail + ['"'] + rest);
      UnquoteOne(p[0], marks[0], tail);
      UnquoteOne(p[0], marks[0], tail + ['\\']);
      var first := if marks[0] then ['\\', p[0]] else [p[0]];
      assert first + (tail + ['"'] + rest) == Marked(p, marks) + ['"'] + rest;
      assert first + (tail + ['\\']) == Marked(p, marks) + ['\\'];
    }
  }

  lemma UnquoteOne(c: char, mark: bool, tail: string)
    requires NeedsEscape(c) ==> mark
    ensures var first := if mark then ['\\', c] else [c];
            Unquote(first + tail) == ([c] + Unquote(tail).0, Unquote(tail).1)
  {
    hide Unquote;
    var first := if mark then ['\\', c] else [c];
    UnquoteStep(first + tail);
    assert (first + tail)[|first|..] == tail;
  }

  /** What was inserted is extracted again, whatever characters it has, and nothing behind it is read. */
  lemma InsertedIsExtracted(p: string, rest: string, junk: char)
    ensures Extracted(Quoted(p) + rest, junk) == (PostProcess(p), rest)
    ensures PlainText(p) ==> Extracted(Quoted(p) + rest, junk) == (p, rest)
  {
    var input := Quoted(p) + rest;
    assert input[1..] == Escaped(p) + ['"'] + rest;
    UnquoteOfEscaped(p, rest);
    if PlainText(p) { PostProcessOfPlain(p); }
  }

  lemma {:induction false} WordIs(w: string, rest: string)
    requires (forall c <- w :: !IsSpace(c)) && (rest == "" || IsSpace(rest[0]))
    ensures UpToSpace(w + rest) == (w, rest)
    decreases |w|
  {
    if w == "" {
      assert w + rest == rest;
    } else {
      assert w[0] in w && forall c <- w[1..] :: c in w;
      assert (w + rest)[1..] == w[1..] + rest && [w[0]] + w[1..] == w;
      WordIs(w[1..], rest);
    }
  }

  /** An unquoted word that needs no post-processing is extracted as it is exactly when it is longer than
      one character, or no other word follows, or it is the root and the other word has nothing but
      separators: blanks behind a single character are skipped and the next word is joined to it. */
  lemma WordIsExtracted(w: string, rest: string, junk: char)
    requires PostProcess(w) == w && w != "" && w[0] != '"' && forall c <- w :: !IsSpace(c)
    requires rest == "" || IsSpace(rest[0])
    ensures SkipSpace(w + rest) == w + rest
    ensures Extracted(w + rest, junk).0 == w
            <==> |w| > 1 || SkipSpace(rest) == "" || (w == [SEP] && forall c <- Word(rest).0 :: c == SEP)
    ensures |w| > 1 ==> Extracted(w + rest, junk) == (w, rest)
  {
    assert w[0] in w;
    if |w| > 1 { LongWord(w, rest, junk); } else { JoinedWord(w, rest, junk); }
  }

  /** Blanks in front are skipped, and when there is nothing else the uninitialised character is the path. */
  lemma BlanksAreSkipped(blanks: string, input: string, junk: char)
    requires forall c <- blanks :: IsSpace(c)
    ensures Extracted(blanks + input, junk) == Extracted(input, junk)
    ensures Extracted(blanks, junk) == (PostProcess(if junk == '"' then "" else [junk]), "")
  {
    hide PostProcess, Unquote, Word;
    SkipBlanks(blanks, input);
    SkipBlanks(blanks, "");
    assert blanks + "" == blanks;
  }

  lemma {:induction false} SkipBlanks(blanks: string, input: string)
    requires forall c <- blanks :: IsSpace(c)
    ensures SkipSpace(blanks + input) == SkipSpace(input)
    decreases |blanks|
  {
    if blanks == "" {
      assert blanks + input == input;
    } else {
      assert blanks[0] in blanks && forall c <- blanks[1..] :: c in blanks;
      assert (blanks + input)[1..] == blanks[1..] + input;
      SkipBlanks(blanks[1..], input);
    }
  }

  /** The word behind a single character: it is joined, and what follows it is left. */
  lemma NextWordIsJoined(c: char, blanks: string, w: string, rest: string, junk: char)
    requires c != '"' && !IsSpace(c) && forall d <- blanks :: IsSpace(d)
    requires (forall d <- w :: !IsSpace(d)) && (rest == "" || IsSpace(rest[0])) && (w == "" ==> rest == "")
    ensures Extracted([c] + (blanks + (w + rest)), junk) == (PostProcess([c] + w), rest)
  {
    hide PostProcess, UpToSpace;
    var tail := blanks + (w + rest);
    assert ([c] + tail)[1..] == tail;
    SkipBlanks(blanks, w + rest);
    if w != "" {
      assert w[0] in w && (w + rest)[0] == w[0];
    } else {
      assert w + rest == "";
    }
    assert SkipSpace(w + rest) == w + rest;
    WordIs(w, rest);
  }

  lemma LongWord(w: string, rest: string, junk: char)
    requires PostProcess(w) == w && |w| > 1 && w[0] != '"' && forall c <- w :: !IsSpace(c)
    requires rest == "" || IsSpace(rest[0])
    ensures Extracted(w + rest, junk) == (w, rest)
  {
    hide PostProcess, UpToSpace;
    assert (w + rest)[1..] == w[1..] + rest;
    assert w[0] in w && w[1] in w && forall c <- w[1..] :: c in w;
    WordIs(w[1..], rest);
    assert SkipSpace(w[1..] + rest) == w[1..] + rest;
    assert [w[0]] + w[1..] == w;
  }

  lemma JoinedWord(w: string, rest: string, junk: char)
    requires |w| == 1 && w[0] != '"' && !IsSpace(w[0])
    ensures Extracted(w + rest, junk).0 == w
            <==> SkipSpace(rest) == "" || (w == [SEP] && forall c <- Word(rest).0 :: c == SEP)
  {
    hide PostProcess, UpToSpace;
    assert w + rest == [w[0]] + rest && (w + rest)[1..] == rest;
    var t := Word(rest).0;
    assert Extracted(w + rest, junk).0 == PostProcess(w + t);
    SkipsOnlySpace(rest);
    WordOf(SkipSpace(rest));
    PostProcessOfJoined(w[0], t);
  }

  /** A character with text behind it survives post-processing alone only as the first of separators. */
  lemma PostProcessOfJoined(c: char, t: string)
    ensures PostProcess([c] + t) == [c] <==> t == "" || (c == SEP && forall d <- t :: d == SEP)
  {
    var s := [c] + t;
    if t != "" {
      assert s[1..] == t && s[1] == t[0];
      UniqueLength(t);
      if c == SEP {
        if forall d <- t :: d == SEP {
          assert forall d <- s :: d == SEP;
          UniqueOfSeparators(s);
          if |t| > 1 { assert s[2] == t[1] && t[1] in t; }
        } else {
          var d :| d in t && d != SEP;
          assert d in s;
          UniqueKeeps(s, d);
        }
      }
    }
  }

  lemma {:induction false} UniqueLength(s: string)
    ensures s != "" ==> Unique(s) != ""
    decreases |s|
  {
    if |s| >= 2 { UniqueLength(s[1..]); }
  }

  /** Separators alone become one separator. */
  lemma {:induction false} UniqueOfSeparators(s: string)
    requires s != "" && forall d <- s :: d == SEP
    ensures Unique(s) == [SEP]
    decreases |s|
  {
    assert s[0] in s;
    if |s| >= 2 {
      assert s[1] in s && forall d <- s[1..] :: d in s;
      UniqueOfSeparators(s[1..]);
    } else {
      assert s == [s[0]];
    }
  }

  /** Other characters are all kept. */
  lemma {:induction false} UniqueKeeps(s: string, d: char)
    requires d in s && d != SEP
    ensures d in Unique(s)
    decreases |s|
  {
    if |s| >= 2 {
      if d == s[0] {
        assert Unique(s)[0] == d;
      } else {
        assert d in s[1..];
        UniqueKeeps(s[1..], d);
      }
    }
  }

  lemma SkipsOnlySpace(input: string)
    ensures SkipSpace(input) == "" || !IsSpace(SkipSpace(input)[0])
    ensures SkipSpace(SkipSpace(input)) == SkipSpace(input)
  {
  }

  lemma WordOf(input: string)
    ensures (input == "" ==> UpToSpace(input).0 == "") && (input != "" && !IsSpace(input[0]) ==> UpToSpace(input).0 != "")
  {
  }

  /** Two words that come out as one. */
  lemma JoinedExample(junk: char)
    ensures Extracted("a b", junk) == ("ab", "")
  {
    assert "a b"[1..] == " b" && " b"[1..] == "b" && "b"[1..] == "";
    assert SkipSpace(" b") == "b";
    assert UpToSpace("") == ("", "") && ['b'] + "" == "b";
    assert UpToSpace("b") == ("b", "");
    assert ['a'] + "b" == "ab";
    PostProcessOfPlain("ab");
  }
}
