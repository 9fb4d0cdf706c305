/** Plain paths: no colon and no doubled separator (so no `//host` root name).

    `Plain` is what such a string means (a root flag, names, a trailing separator);
    `Render` writes it back. The lemmas show that each operation of `PathText`, which
    works on character positions, does the obvious thing to the list of names.
 */
module PathPlain {
  import opened PathText
  import opened SeqFacts

  predicate PlainText(s: string) {
    && ':' !in s
    && forall i :: 0 < i < |s| ==> !(s[i - 1] == SEP && s[i] == SEP)
  }

  predicate IsName(c: string) {
    c != "" && SEP !in c && ':' !in c
  }

  datatype Plain = Plain(abs: bool, comps: seq<string>, slash: bool) {
    predicate Valid() {
      && (forall c <- comps :: IsName(c))
      && (slash ==> comps != [])
    }

    /** The elements a reader of the path sees: the root, the names, "" for a trailing separator. */
    function Elements(): seq<string> {
      (if abs then [[SEP]] else []) + comps + (if slash then [""] else [])
    }
  }

  const EMPTY := Plain(false, [], false)

  function Join(cs: seq<string>): (s: string) {
    if cs == [] then "" else if |cs| == 1 then cs[0] else cs[0] + [SEP] + Join(cs[1..])
  }

  function Render(a: Plain): string {
    (if a.abs then [SEP] else "") + Join(a.comps) + (if a.slash then [SEP] else "")
  }

  /** The separators at two neighbouring positions are not both there. */
  lemma NoDouble(s: string, i: nat)
    requires 0 < i < |s| && forall k :: 0 < k < |s| ==> !(s[k - 1] == SEP && s[k] == SEP)
    ensures s[i - 1] != SEP || s[i] != SEP
  {
  }

  // ------------------------------------------------------------------ plain strings need no post-processing

  lemma {:induction false} UniqueOfPlain(s: string)
    requires forall i :: 0 < i < |s| ==> !(s[i - 1] == SEP && s[i] == SEP)
    ensures Unique(s) == s
  {
    if |s| >= 2 {
      var t := s[1..];
      forall i | 0 < i < |t| ensures !(t[i - 1] == SEP && t[i] == SEP) {
        assert t[i - 1] == s[i] && t[i] == s[i + 1];
      }
      UniqueOfPlain(t);
      NoDouble(s, 1);
    }
  }

  lemma PostProcessOfPlain(s: string)
    requires PlainText(s)
    ensures PostProcess(s) == s
  {
    if |s| > 1 { NoDouble(s, 1); }
    UniqueOfPlain(s);
  }

  lemma SliceOfPlain(s: string, i: nat, j: nat)
    requires PlainText(s) && i <= j <= |s|
    ensures PlainText(s[i..j])
  {
  }

  lemma RootOfPlain(s: string)
    requires PlainText(s)
    ensures RootNameLength(s) == 0 && RootName(s) == ""
    ensures HasRootDirectory(s) == IsAbsolute(s) == (s != "" && s[0] == SEP)
    ensures RootPathLength(s) == (if IsAbsolute(s) then 1 else 0)
    ensures RootPosition(s) == if IsAbsolute(s) then 0 else |s|
    ensures RootPath(s) == if IsAbsolute(s) then [SEP] else ""
  {
  }

  // ------------------------------------------------------------------ what the iterator does at a name

  /** `c` is the name at position `pos`: it starts there and reaches the next separator or the end. */
  ghost predicate NameAt(s: string, pos: nat, c: string) {
    && IsName(c)
    && pos + |c| <= |s|
    && s[pos..pos + |c|] == c
    && (pos + |c| == |s| || s[pos + |c|] == SEP)
    && (pos > 0 ==> s[pos - 1] == SEP)
  }

  /** Where `++` goes from a name that ends at `end`. */
  function Follow(s: string, end: nat): nat {
    if end < |s| && end + 1 != |s| then end + 1 else end
  }

  lemma IterateAtName(s: string, pos: nat, c: string)
    requires PlainText(s) && NameAt(s, pos, c)
    ensures Current(s, pos) == c
    ensures Increment(s, pos) == pos + |c|
    ensures Next(s, pos) == Follow(s, pos + |c|)
  {
    hide PostProcess, RootPosition, PlainText, Increment, SkipToElement;
    RootOfPlain(s);
    IncrementAtName(s, pos, c);
    CutIsPlain(s, pos, c);
    PostProcessOfPlain(c);
    NextBehindName(s, pos + |c|);
  }

  lemma CutIsPlain(s: string, pos: nat, c: string)
    requires PlainText(s) && NameAt(s, pos, c)
    ensures PlainText(c) && pos < |s| && s[pos] != SEP
  {
    SliceOfPlain(s, pos, pos + |c|);
    assert s[pos] == c[0] && c[0] in c;
  }

  /** The loop of `++` skips the separator behind a name, unless it is the last character. */
  lemma NextBehindName(s: string, end: nat)
    requires PlainText(s) && 0 < end <= |s| && (end < |s| ==> s[end] == SEP && s[end - 1] != SEP)
    requires RootPosition(s) == 0 || RootPosition(s) == |s|
    ensures SkipToElement(s, end) == Follow(s, end)
  {
    hide RootPosition;
    if end + 1 < |s| {
      NoDouble(s, end + 1);
      assert SkipToElement(s, end + 1) == end + 1;
    }
  }

  lemma IncrementAtName(s: string, pos: nat, c: string)
    requires PlainText(s) && NameAt(s, pos, c)
    ensures Increment(s, pos) == pos + |c|
  {
  }

  lemma IterateAtRoot(s: string)
    requires PlainText(s) && IsAbsolute(s)
    ensures Current(s, 0) == [SEP]
    ensures Increment(s, 0) == Next(s, 0) == 1
  {
  }

  lemma IterateAtTrailingSeparator(s: string)
    requires PlainText(s) && EndsWithSep(s) && |s| > 1
    ensures Current(s, |s| - 1) == ""
    ensures Next(s, |s| - 1) == |s|
  {
  }

  // ------------------------------------------------------------------ Render gives plain strings

  lemma {:induction false} JoinIsPlain(cs: seq<string>)
    requires forall c <- cs :: IsName(c)
    ensures PlainText(Join(cs))
    ensures cs != [] ==> Join(cs) != "" && Join(cs)[0] != SEP && Join(cs)[|Join(cs)| - 1] != SEP
  {
    if cs != [] {
      assert cs[0] in cs;
      NameIsPlain(cs[0]);
      if |cs| > 1 {
        JoinIsPlain(cs[1..]);
        PlainGlue(cs[0], Join(cs[1..]));
      }
    }
  }

  lemma NameIsPlain(c: string)
    requires IsName(c)
    ensures PlainText(c) && c[0] != SEP && c[|c| - 1] != SEP
  {
  }

  lemma PlainGlue(a: string, b: string)
    requires PlainText(a) && PlainText(b)
    requires !EndsWithSep(a) && !(b != "" && b[0] == SEP)
    ensures PlainText(a + [SEP] + b)
  {
  }

  lemma RenderIsPlain(a: Plain)
    requires a.Valid()
    ensures PlainText(Render(a))
    ensures IsAbsolute(Render(a)) == a.abs
    ensures EndsWithSep(Render(a)) == (a.slash || (a.abs && a.comps == []))
    ensures Render(a) == "" <==> a == EMPTY
  {
    hide Join, IsName;
    var j := Join(a.comps);
    JoinIsPlain(a.comps);
    if a.comps == [] { NoElements(a); }
    var t := Render(a);
    if a.abs {
      PlainGlue("", j);
      assert "" + [SEP] + j == [SEP] + j;
      if a.slash {
        assert j != "" && ([SEP] + j)[|j|] == j[|j| - 1];
        PlainGlue([SEP] + j, "");
        assert [SEP] + j + [SEP] + "" == t;
      } else {
        assert t == [SEP] + j;
      }
    } else if a.slash {
      PlainGlue(j, "");
      assert j + [SEP] + "" == t;
    } else {
      assert t == j;
    }
    RootOfPlain(t);
  }

  // ------------------------------------------------------------------ the iterator sees the elements

  /** The names `cs` and then the end or one trailing separator are what is left from `pos`. */
  ghost predicate Rest(s: string, pos: nat, cs: seq<string>, slash: bool) {
    && pos <= |s|
    && (pos > 0 ==> s[pos - 1] == SEP)
    && (forall c <- cs :: IsName(c))
    && s[pos..] == Join(cs) + (if slash then [SEP] else "")
  }

  /** The first name of the rest, and what is left behind it. */
  lemma RestStep(s: string, pos: nat, cs: seq<string>, slash: bool)
    requires Rest(s, pos, cs, slash) && cs != []
    ensures NameAt(s, pos, cs[0])
    ensures var end := pos + |cs[0]|;
            if |cs| > 1 then end + 1 < |s| && Rest(s, end + 1, cs[1..], slash)
            else end + (if slash then 1 else 0) == |s| && (slash ==> EndsWithSep(s))
  {
    var tail := if slash then [SEP] else "";
    hide IsName;
    if |cs| > 1 {
      JoinIsPlain(cs[1..]);
      RestMore(s, pos, cs, tail);
    } else {
      RestLast(s, pos, cs[0], tail);
    }
  }

  lemma RestMore(s: string, pos: nat, cs: seq<string>, tail: string)
    requires pos <= |s| && s[pos..] == Join(cs) + tail && |cs| > 1
    ensures var end := pos + |cs[0]|;
            && end + 1 <= |s| && s[pos..end] == cs[0] && s[end] == SEP
            && s[end + 1..] == Join(cs[1..]) + tail
            && (Join(cs[1..]) != "" ==> end + 1 < |s|)
  {
    var j := Join(cs[1..]);
    assert Join(cs) == cs[0] + [SEP] + j;
    hide Join;
    assert cs[0] + [SEP] + j + tail == cs[0] + ([SEP] + (j + tail));
    CutFront(s, pos, cs[0], [SEP] + (j + tail));
    CutFront(s, pos + |cs[0]|, [SEP], j + tail);
  }

  lemma RestLast(s: string, pos: nat, c: string, tail: string)
    requires pos <= |s| && s[pos..] == Join([c]) + tail && tail in ["", [SEP]]
    ensures var end := pos + |c|;
            && end + |tail| == |s| && s[pos..end] == c
            && (tail != "" ==> s[end] == SEP && EndsWithSep(s))
  {
    assert Join([c]) == c;
    CutFront(s, pos, c, tail);
  }

  lemma ElementsAtName(s: string, pos: nat, c: string)
    requires PlainText(s) && NameAt(s, pos, c)
    ensures ElementsFrom(s, pos) == [c] + ElementsFrom(s, Follow(s, pos + |c|))
  {
    IterateAtName(s, pos, c);
  }

  lemma ElementsAtEnd(s: string, slash: bool)
    requires PlainText(s) && (slash ==> |s| > 1 && EndsWithSep(s))
    ensures ElementsFrom(s, |s| - if slash then 1 else 0) == if slash then [""] else []
  {
  }

  lemma {:induction false} ElementsOfRest(s: string, pos: nat, cs: seq<string>, slash: bool)
    requires PlainText(s) && Rest(s, pos, cs, slash) && cs != []
    ensures ElementsFrom(s, pos) == cs + (if slash then [""] else [])
    decreases |cs|
  {
    hide ElementsFrom;
    RestStep(s, pos, cs, slash);
    var end := pos + |cs[0]|;
    ElementsAtName(s, pos, cs[0]);
    assert cs == [cs[0]] + cs[1..];
    if |cs| > 1 {
      assert Follow(s, end) == end + 1;
      ElementsOfRest(s, end + 1, cs[1..], slash);
      assert [cs[0]] + (cs[1..] + (if slash then [""] else [])) == cs + (if slash then [""] else []);
    } else {
      assert Follow(s, end) == end;
      ElementsAtEnd(s, slash);
    }
  }

  lemma RestOfRender(a: Plain)
    requires a.Valid()
    ensures Rest(Render(a), if a.abs then 1 else 0, a.comps, a.slash)
  {
  }

  lemma NoElements(a: Plain)
    requires a.comps == [] && !a.slash
    ensures |Render(a)| == if a.abs then 1 else 0
  {
  }

  /** The position-based iterator sees exactly the root, the names and the trailing empty element. */
  lemma ElementsOfRender(a: Plain)
    requires a.Valid()
    ensures Elements(Render(a)) == a.Elements()
  {
    hide Join, IsName, PlainText, Rest, Render, ElementsFrom, Elements;
    var t, root := Render(a), if a.abs then 1 else 0;
    RenderIsPlain(a);
    RestOfRender(a);
    if a.comps != [] {
      ElementsOfRest(t, root, a.comps, a.slash);
    } else {
      NoElements(a);
      ElementsAtEnd(t, false);
    }
    ElementsAtRoot(t);
    assert a.Elements() == (if a.abs then [[SEP]] else []) + (a.comps + if a.slash then [""] else []);
  }

  lemma ElementsAtRoot(t: string)
    requires PlainText(t)
    ensures IsAbsolute(t) ==> t != "" && Elements(t) == [[SEP]] + ElementsFrom(t, 1)
    ensures !IsAbsolute(t) ==> Elements(t) == ElementsFrom(t, 0)
  {
    hide PlainText;
    if IsAbsolute(t) {
      IterateAtRoot(t);
      assert t != "" by { RootOfPlain(t); }
    }
  }

  // ------------------------------------------------------------------ every plain string is a rendering

  /** The names in `s` and whether a separator follows the last one. */
  function Split(s: string): (r: (seq<string>, bool))
    decreases |s|
  {
    if s == "" then ([], false)
    else
      var k := Find(s, SEP, 0);
      if k == |s| then ([s], false)
      else if k + 1 == |s| then ([s[..k]], true)
      else
        var (cs, slash) := Split(s[k + 1..]);
        ([s[..k]] + cs, slash)
  }

  lemma {:induction false} SplitIsRest(s: string)
    requires PlainText(s) && (s != "" ==> s[0] != SEP)
    ensures var (cs, slash) := Split(s);
            && Rest(s, 0, cs, slash) && (slash ==> cs != [])
    decreases |s|
  {
    hide PlainText, Join, IsName;
    assert s[0..] == s;
    if s == "" {
      RestOfNothing();
    } else {
      var k := Find(s, SEP, 0);
      FirstName(s, k);
      var c := s[..k];
      if k == |s| {
        assert s == c + "" == c;
        RestIsName(c, false);
      } else if k + 1 == |s| {
        assert s == c + [SEP];
        RestIsName(c, true);
      } else {
        var t := s[k + 1..];
        SplitIsRest(t);
        var (cs, slash) := Split(t);
        assert s == c + [SEP] + t;
        RestGrows(c, t, cs, slash);
      }
    }
  }

  lemma RestOfNothing()
    ensures Rest("", 0, [], false)
  {
  }

  /** Up to the first separator there is a name, and no second separator behind it. */
  lemma FirstName(s: string, k: nat)
    requires PlainText(s) && s != "" && s[0] != SEP && k == Find(s, SEP, 0)
    ensures IsName(s[..k])
    ensures k + 1 < |s| ==> PlainText(s[k + 1..]) && s[k + 1] != SEP
  {
    hide Find;
    if k + 1 < |s| {
      SliceOfPlain(s, k + 1, |s|);
      assert s[k + 1..|s|] == s[k + 1..];
      NoDouble(s, k + 1);
    }
  }

  lemma RestIsName(c: string, slash: bool)
    requires IsName(c)
    ensures Rest(c + (if slash then [SEP] else ""), 0, [c], slash)
  {
    hide IsName;
    var s := c + (if slash then [SEP] else "");
    assert s[0..] == s;
  }

  lemma RestGrows(c: string, t: string, cs: seq<string>, slash: bool)
    requires IsName(c) && t != "" && Rest(t, 0, cs, slash) && (slash ==> cs != [])
    ensures Rest(c + [SEP] + t, 0, [c] + cs, slash)
  {
  }

  function Parse(s: string): Plain {
    var abs := s != "" && s[0] == SEP;
    var (cs, slash) := Split(if abs then s[1..] else s);
    Plain(abs, cs, slash)
  }

  /** Plain strings and valid `Plain` values are the same thing. */
  lemma RenderOfParse(s: string)
    requires PlainText(s)
    ensures Parse(s).Valid() && Render(Parse(s)) == s
  {
    hide Join, IsName, Split, PlainText;
    var abs := s != "" && s[0] == SEP;
    var t := if abs then s[1..] else s;
    NoSecondSeparator(s);
    SplitIsRest(t);
    assert t[0..] == t;
    if abs { assert s == [SEP] + t; }
  }

  lemma NoSecondSeparator(s: string)
    requires PlainText(s)
    ensures var t := if s != "" && s[0] == SEP then s[1..] else s;
            PlainText(t) && (t != "" ==> t[0] != SEP)
  {
    if |s| > 1 { NoDouble(s, 1); }
    if s != "" {
      SliceOfPlain(s, 1, |s|);
      assert s[1..|s|] == s[1..];
    }
  }

  /** No string has two readings. */
  lemma RenderInjective(a: Plain, b: Plain)
    requires a.Valid() && b.Valid()
    ensures Render(a) == Render(b) <==> a == b
  {
    hide Join, IsName, Elements;
    if Render(a) == Render(b) {
      RenderIsPlain(a);
      RenderIsPlain(b);
      ElementsOfRender(a);
      ElementsOfRender(b);
      assert a.comps == a.Elements()[(if a.abs then 1 else 0)..|a.Elements()| - if a.slash then 1 else 0];
      assert b.comps == b.Elements()[(if b.abs then 1 else 0)..|b.Elements()| - if b.slash then 1 else 0];
      LastElement(a);
      LastElement(b);
    }
  }

  lemma LastElement(a: Plain)
    requires a.Valid()
    ensures a.slash <==> a.Elements() != [] && a.Elements()[|a.Elements()| - 1] == ""
  {
    if !a.slash && a.comps != [] { assert a.comps[|a.comps| - 1] in a.comps; }
  }
}
