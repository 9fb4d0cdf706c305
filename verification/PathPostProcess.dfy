/** `postprocess_path_with_format`: one separator is as good as many. */
module PathPostProcess {
  import opened PathText
  import opened PathPlain
  import opened PathCompare

  /** No two separators in a row. */
  predicate Single(s: string) {
    forall i :: 0 < i < |s| ==> !(s[i - 1] == SEP && s[i] == SEP)
  }

  lemma {:induction false} UniqueIsSingle(s: string)
    ensures Single(Unique(s))
    ensures s != "" ==> Unique(s) != "" && Unique(s)[0] == s[0]
    decreases |s|
  {
    if |s| >= 2 {
      UniqueIsSingle(s[1..]);
      var u := Unique(s[1..]);
      if !(s[0] == SEP && s[1] == SEP) {
        forall i | 0 < i < |[s[0]] + u| ensures !(([s[0]] + u)[i - 1] == SEP && ([s[0]] + u)[i] == SEP) {
          if i > 1 { NoDouble(u, i - 1); }
        }
      }
    }
  }

  function NonEmpty(ss: seq<string>): seq<string> {
    if ss == [] then [] else (if ss[0] == "" then [] else [ss[0]]) + NonEmpty(ss[1..])
  }

  /** The names of a path text, whatever the number of separators between them. */
  function NamesOf(s: string): seq<string> {
    NonEmpty(Segments(s))
  }

  lemma {:induction false} UniqueKeepsNames(s: string)
    ensures Segments(Unique(s))[0] == Segments(s)[0]
    ensures NonEmpty(Segments(Unique(s))[1..]) == NonEmpty(Segments(s)[1..])
    decreases |s|
  {
    if |s| >= 2 {
      UniqueKeepsNames(s[1..]);
      var t, u := Segments(s[1..]), Segments(Unique(s[1..]));
      if s[0] == SEP && s[1] == SEP {
        assert Segments(s)[1..] == t && t[0] == "";
      } else {
        var r := [s[0]] + Unique(s[1..]);
        assert r[1..] == Unique(s[1..]);
        if s[0] == SEP {
          assert Segments(s)[1..] == t && Segments(r)[1..] == u;
        } else {
          assert Segments(s)[1..] == t[1..] && Segments(r)[1..] == u[1..];
        }
      }
    }
  }

  lemma SplitNames(s: string)
    ensures NamesOf(s) == (if Segments(s)[0] == "" then [] else [Segments(s)[0]]) + NonEmpty(Segments(s)[1..])
  {
  }

  /** Does a text start like a network name: exactly two separators before something else? */
  predicate NetworkStart(s: string) {
    |s| > 2 && s[0] == SEP && s[1] == SEP && s[2] != SEP
  }

  /** Post-processing leaves single separators, apart from a network start; it is idempotent; it keeps
      the names and whether the text is absolute. */
  lemma PostProcessIsNormalisation(s: string)
    ensures NetworkStart(PostProcess(s)) == NetworkStart(s)
    ensures !NetworkStart(s) ==> Single(PostProcess(s))
    ensures NetworkStart(s) ==> Single(PostProcess(s)[1..])
    ensures PostProcess(PostProcess(s)) == PostProcess(s)
    ensures NamesOf(PostProcess(s)) == NamesOf(s)
    ensures (s != "" && s[0] == SEP) == (PostProcess(s) != "" && PostProcess(s)[0] == SEP)
  {
    hide Unique, Segments;
    var r := PostProcess(s);
    if NetworkStart(s) {
      var u := Unique(s[2..]);
      UniqueIsSingle(s[2..]);
      assert r == s[..2] + u && r[2..] == u && r[..2] == s[..2];
      UniqueOfPlain(u);
      assert r[1..] == [SEP] + u;
      NetworkNames(s, u);
    } else {
      UniqueIsSingle(s);
      if |r| > 2 { NoDouble(r, 1); }
      UniqueOfPlain(r);
      UniqueKeepsNames(s);
      SplitNames(s);
      SplitNames(r);
    }
  }

  lemma NetworkNames(s: string, u: string)
    requires NetworkStart(s) && u == Unique(s[2..])
    ensures NamesOf(s[..2] + u) == NamesOf(s)
  {
    TwoSeparators(s[2..]);
    TwoSeparators(u);
    assert s == [SEP, SEP] + s[2..] && s[..2] + u == [SEP, SEP] + u;
    UniqueKeepsNames(s[2..]);
    SplitNames(s[2..]);
    SplitNames(u);
  }

  lemma TwoSeparators(t: string)
    ensures NamesOf([SEP, SEP] + t) == NamesOf(t)
  {
    var a, b := [SEP, SEP] + t, [SEP] + t;
    assert a[1..] == b && b[1..] == t;
    assert Segments(b) == [""] + Segments(t) && Segments(b)[1..] == Segments(t);
    assert Segments(a) == [""] + Segments(b) && Segments(a)[1..] == Segments(b);
    hide Segments;
    assert NonEmpty(Segments(a)) == NonEmpty(Segments(b));
    assert NonEmpty(Segments(b)) == NonEmpty(Segments(t));
  }

  /** Any text without colon and network start becomes a plain path. */
  lemma PostProcessIsPlain(s: string)
    requires ':' !in s && !NetworkStart(s)
    ensures PlainText(PostProcess(s))
  {
    PostProcessIsNormalisation(s);
    UniqueAddsNothing(s);
  }

  lemma {:induction false} UniqueAddsNothing(s: string)
    ensures forall c <- Unique(s) :: c in s
    decreases |s|
  {
    if |s| >= 2 {
      UniqueAddsNothing(s[1..]);
      assert forall c <- s[1..] :: c in s;
    }
  }
}
