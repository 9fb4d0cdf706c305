/** `operator/=`, `filename`, `remove_filename` and `parent_path` on plain paths. */
module PathAppend {
  import opened PathText
  import opened PathPlain

  // ------------------------------------------------------------------ what /= means

  /** `a / b` on names: an absolute `b` replaces, a relative one is put behind. */
  function Append(a: Plain, b: Plain): Plain {
    if b.abs then b
    else if b.comps == [] then a.(slash := a.comps != [])
    else Plain(a.abs, a.comps + b.comps, b.slash)
  }

  lemma {:induction false} LastNameOfRest(s: string, pos: nat, cs: seq<string>, slash: bool)
    requires PlainText(s) && Rest(s, pos, cs, slash) && cs != []
    ensures var len := |s| - if slash then 1 else 0;
            var c := cs[|cs| - 1];
            && pos + |c| <= len
            && NameAt(s, len - |c|, c)
    ensures slash ==> EndsWithSep(s)
    decreases |cs|
  {
    hide Join, IsName, PlainText, NameAt, Rest;
    RestStep(s, pos, cs, slash);
    if |cs| > 1 {
      LastNameOfRest(s, pos + |cs[0]| + 1, cs[1..], slash);
      assert cs[1..][|cs| - 2] == cs[|cs| - 1];
    } else {
      assert pos == |s| - (if slash then 1 else 0) - |cs[0]|;
    }
  }

  /** `--` from the end of a name goes to its start. */
  lemma DecrementOverName(s: string, pos: nat, c: string, from: nat)
    requires PlainText(s) && NameAt(s, pos, c)
    requires from == |s| == pos + |c| || (from < |s| && from == Follow(s, pos + |c|))
    ensures Decrement(s, from) == pos
  {
  }

  lemma FilenameOfRender(a: Plain)
    requires a.Valid()
    ensures HasRelativePath(Render(a)) == (a.comps != [])
    ensures HasFilename(Render(a)) == (a.comps != [] && !a.slash)
    ensures Filename(Render(a)) == if a.comps == [] || a.slash then "" else a.comps[|a.comps| - 1]
    ensures a.comps != [] ==>
              Decrement(Render(a), |Render(a)|)
              == |Render(a)| - if a.slash then 1 else |a.comps[|a.comps| - 1]|
    ensures a.comps != [] && !a.slash ==>
              NameAt(Render(a), |Render(a)| - |a.comps[|a.comps| - 1]|, a.comps[|a.comps| - 1])
  {
    hide Join, IsName;
    var t := Render(a);
    RenderIsPlain(a);
    RootOfPlain(t);
    if a.comps == [] {
      JoinOne("");
      assert |t| == if a.abs then 1 else 0;
    } else {
      LastOfRender(a);
    }
  }

  lemma LastOfRender(a: Plain)
    requires a.Valid() && a.comps != []
    ensures var t, last := Render(a), a.comps[|a.comps| - 1];
            && |t| > (if a.abs then 1 else 0) && last != ""
            && Decrement(t, |t|) == |t| - (if a.slash then 1 else |last|)
            && Current(t, Decrement(t, |t|)) == (if a.slash then "" else last)
            && (!a.slash ==> NameAt(t, |t| - |last|, last))
  {
    hide Join, NameAt, Current, Next, Increment, PlainText, Decrement;
    var t, last := Render(a), a.comps[|a.comps| - 1];
    RenderIsPlain(a);
    JoinIsPlain(a.comps);
    assert last in a.comps;
    if a.slash {
      TrailingSeparator(t);
    } else {
      RestOfRender(a);
      LastNameOfRest(t, if a.abs then 1 else 0, a.comps, false);
      hide IsName, Rest;
      DecrementOverName(t, |t| - |last|, last, |t|);
      IterateAtName(t, |t| - |last|, last);
    }
  }

  lemma TrailingSeparator(t: string)
    requires PlainText(t) && EndsWithSep(t) && |t| > 1
    ensures Decrement(t, |t|) == |t| - 1 && Current(t, |t| - 1) == ""
  {
  }

  lemma JoinOne(c: string)
    ensures Join([]) == "" && Join([c]) == c
  {
  }

  // ------------------------------------------------------------------ the element loop of /= copies the string

  /** After the element that ends at `end`, the loop copies the rest of `p`, separator first. */
  lemma {:induction false} CopyRest(acc: string, p: string, end: nat)
    requires PlainText(p) && 0 < end <= |p|
    requires p[end - 1] != SEP && (end == |p| || p[end] == SEP)
    requires acc != "" && !EndsWithSep(acc)
    ensures AppendElements(acc, p, Follow(p, end), false) == acc + p[end..]
    decreases |p| - end
  {
    hide AppendElements, PlainText;
    var pos := Follow(p, end);
    if end == |p| {
      CopyNothing(acc, p);
      assert acc + p[end..] == acc;
    } else if end + 1 == |p| {
      CopySlash(acc, p);
      assert acc + [SEP] == acc + p[end..];
    } else {
      var c := CopyName(acc, p, end);
      var end' := pos + |c|;
      var acc' := acc + [SEP] + c;
      CopyRest(acc', p, end');
      assert acc' + p[end'..] == acc + p[end..] by {
        assert p[end..] == [SEP] + c + p[end'..];
      }
    }
  }

  lemma CopyNothing(acc: string, p: string)
    ensures AppendElements(acc, p, |p|, false) == acc
  {
  }

  lemma CopyOne(acc: string, p: string, pos: nat)
    requires pos < |p| && acc != "" && !EndsWithSep(acc)
    ensures AppendElements(acc, p, pos, false) == AppendElements(acc + [SEP] + Current(p, pos), p, Next(p, pos), false)
  {
    hide Current, Next;
  }

  lemma CopySlash(acc: string, p: string)
    requires PlainText(p) && |p| > 1 && EndsWithSep(p) && acc != "" && !EndsWithSep(acc)
    ensures AppendElements(acc, p, |p| - 1, false) == acc + [SEP]
  {
    hide AppendElements, PlainText;
    CopyOne(acc, p, |p| - 1);
    IterateAtTrailingSeparator(p);
    CopyNothing(acc + [SEP] + "", p);
    assert acc + [SEP] + "" == acc + [SEP];
  }

  /** One round: the separator and the name behind it. */
  lemma CopyName(acc: string, p: string, end: nat) returns (c: string)
    requires PlainText(p) && 0 < end && end + 1 < |p| && p[end] == SEP
    requires acc != "" && !EndsWithSep(acc)
    ensures c != "" && end + 1 + |c| <= |p| && c == p[end + 1..end + 1 + |c|]
    ensures (end + 1 + |c| == |p| || p[end + 1 + |c|] == SEP) && p[end + |c|] != SEP
    ensures !EndsWithSep(acc + [SEP] + c)
    ensures AppendElements(acc, p, end + 1, false)
            == AppendElements(acc + [SEP] + c, p, Follow(p, end + 1 + |c|), false)
  {
    hide AppendElements, Current, Next;
    NoDouble(p, end + 1);
    c := p[end + 1..Find(p, SEP, end + 1)];
    NameFrom(p, end + 1, c);
    CopyOne(acc, p, end + 1);
  }

  lemma NameFrom(p: string, pos: nat, c: string)
    requires PlainText(p) && pos < |p| && p[pos] != SEP && (pos > 0 ==> p[pos - 1] == SEP)
    requires c == p[pos..Find(p, SEP, pos)]
    ensures NameAt(p, pos, c) && p[pos + |c| - 1] != SEP
    ensures Current(p, pos) == c && Next(p, pos) == Follow(p, pos + |c|)
  {
    hide Current, Next;
    assert NameAt(p, pos, c) by { assert forall i :: 0 <= i < |c| ==> c[i] == p[pos + i]; }
    IterateAtName(p, pos, c);
  }

  lemma CopyRelative(acc: string, p: string)
    requires PlainText(p) && p != "" && !IsAbsolute(p)
    ensures AppendElements(acc, p, 0, true) == acc + p
  {
    hide AppendElements;
    RootOfPlain(p);
    var c := p[0..Find(p, SEP, 0)];
    NameFrom(p, 0, c);
    var end := |c|;
    assert (acc + c)[|acc + c| - 1] == c[end - 1] != SEP;
    CopyRest(acc + c, p, end);
    assert acc + c + p[end..] == acc + p;
    CopyFirst(acc, p);
  }

  lemma CopyFirst(acc: string, p: string)
    requires p != ""
    ensures AppendElements(acc, p, 0, true) == AppendElements(acc + Current(p, 0), p, Next(p, 0), false)
  {
  }

  lemma CopyRootOnly(acc: string)
    ensures AppendElements(acc, [SEP], 0, true) == acc + [SEP]
  {
  }

  /** On plain strings `/=` is: nothing but a final separator, replacement, or one separator between. */
  lemma AppendPlain(s: string, p: string)
    requires PlainText(s) && PlainText(p)
    ensures AppendPath(s, p) ==
            if p == "" then (if s == "" || EndsWithSep(s) then s else s + [SEP])
            else if IsAbsolute(p) then p
            else if HasFilename(s) then s + [SEP] + p else s + p
  {
    hide Current, Next, Filename, AppendElements;
    RootOfPlain(s);
    RootOfPlain(p);
    if p == "" {
      if s != "" { assert s[|s| - 1] in s; }
    } else if !IsAbsolute(p) {
      CopyRelative(if HasFilename(s) then s + [SEP] else s, p);
    } else if s == "" && p == [SEP] {
      CopyRootOnly("");
    }
  }

  lemma {:induction false} JoinConcat(cs: seq<string>, ds: seq<string>)
    requires cs != [] && ds != []
    ensures Join(cs + ds) == Join(cs) + [SEP] + Join(ds)
  {
    if |cs| == 1 {
      assert (cs + ds)[1..] == ds;
    } else {
      assert (cs + ds)[1..] == cs[1..] + ds;
      JoinConcat(cs[1..], ds);
    }
  }

  /** The character loop of `/=` computes `Append`. */
  lemma AppendOfRender(a: Plain, b: Plain)
    requires a.Valid() && b.Valid()
    ensures AppendPath(Render(a), Render(b)) == Render(Append(a, b))
    ensures Append(a, b).Valid()
  {
    hide AppendPath, HasFilename, IsAbsolute, PlainText, IsName;
    RenderIsPlain(a);
    RenderIsPlain(b);
    FilenameOfRender(a);
    AppendPlain(Render(a), Render(b));
    RenderOfAppend(a, b);
  }

  lemma RenderOfAppend(a: Plain, b: Plain)
    requires a.Valid() && b.Valid()
    ensures Render(Append(a, b)) ==
            if b == EMPTY then (if a.comps != [] && !a.slash then Render(a) + [SEP] else Render(a))
            else if b.abs then Render(b)
            else if a.comps != [] && !a.slash then Render(a) + [SEP] + Render(b) else Render(a) + Render(b)
  {
    hide IsName, Join;
    JoinOne("");
    if !b.abs && b.comps != [] {
      if a.comps == [] {
        assert a.comps + b.comps == b.comps;
      } else {
        JoinConcat(a.comps, b.comps);
        RenderGlue(a, b);
      }
    }
  }

  lemma RenderGlue(a: Plain, b: Plain)
    requires Join(a.comps + b.comps) == Join(a.comps) + [SEP] + Join(b.comps)
    requires !b.abs
    ensures Render(Plain(a.abs, a.comps + b.comps, b.slash))
            == Render(a) + (if a.slash then "" else [SEP]) + Render(b)
  {
    hide Join;
  }

  lemma SourceIsPath(s: string, source: string)
    requires PlainText(source)
    ensures AppendSource(s, source) == AppendPath(s, source)
  {
    PostProcessOfPlain(source);
  }

  // ------------------------------------------------------------------ remove_filename, parent_path

  /** `a` without its last name; what is left ends in a separator. */
  function DropLast(a: Plain): Plain
    requires a.comps != []
  {
    var cs := a.comps[..|a.comps| - 1];
    Plain(a.abs, cs, cs != [])
  }

  lemma JoinLast(cs: seq<string>)
    requires cs != []
    ensures |cs| > 1 ==> Join(cs) == Join(cs[..|cs| - 1]) + [SEP] + cs[|cs| - 1]
  {
    hide Join;
    if |cs| > 1 {
      JoinOne(cs[|cs| - 1]);
      JoinConcat(cs[..|cs| - 1], [cs[|cs| - 1]]);
      assert cs[..|cs| - 1] + [cs[|cs| - 1]] == cs;
    }
  }

  /** Removing the filename takes the last name away; without one nothing changes. */
  lemma RemoveFilenameOfRender(a: Plain)
    requires a.Valid()
    ensures a.comps == [] || a.slash ==> RemoveFilename(Render(a)) == Render(a)
    ensures a.comps != [] ==> DropLast(a).Valid()
    ensures a.comps != [] && !a.slash ==> RemoveFilename(Render(a)) == Render(DropLast(a))
  {
    hide Filename, HasFilename, IsName;
    FilenameOfRender(a);
    if a.comps != [] && !a.slash {
      RenderOfDropLast(a);
      var r := Render(DropLast(a));
      assert Render(a)[..|r|] == r;
    }
  }

  lemma RenderOfDropLast(a: Plain)
    requires a.Valid() && a.comps != [] && !a.slash
    ensures Render(a) == Render(DropLast(a)) + a.comps[|a.comps| - 1]
  {
    JoinLast(a.comps);
    if |a.comps| > 1 { hide Join; }
  }

  /** The parent: without the trailing separator, or without the last name; the root is its own parent. */
  function Parent(a: Plain): Plain {
    if a.comps == [] then a
    else if a.slash then a.(slash := false) else DropLast(a).(slash := false)
  }

  /** `parent_path` on names: a trailing separator goes, or else the last name with the separator before
      it; without names the path stays. */
  lemma ParentOfRender(a: Plain)
    requires a.Valid()
    ensures Parent(a).Valid()
    ensures ParentPath(Render(a)) == Render(Parent(a))
    ensures a.comps == [] ==> ParentPath(Render(a)) == Render(a)
    ensures a.slash ==> ParentPath(Render(a)) + [SEP] == Render(a)
    ensures a.comps != [] && !a.slash ==>
              ParentPath(Render(a)) == Render(Plain(a.abs, a.comps[..|a.comps| - 1], false))
  {
    FilenameOfRender(a);
    if a.comps != [] { ParentOfNames(a); }
  }

  lemma ParentOfNames(a: Plain)
    requires a.Valid() && a.comps != []
    ensures Parent(a).Valid()
    ensures ParentPath(Render(a)) == Render(Parent(a))
  {
    hide Filename, HasFilename, IsName, PlainText, PostProcess, Decrement, Join;
    var t := Render(a);
    RenderIsPlain(a);
    RenderIsPlain(Parent(a));
    RootOfPlain(t);
    FilenameOfRender(a);
    PostProcessOfPlain(Render(Parent(a)));
    CutBeforeLast(a);
    hide Render;
    assert HasRelativePath(t);
  }

  lemma CutBeforeLast(a: Plain)
    requires a.Valid() && a.comps != []
    ensures var t := Render(a);
            var i := |t| - if a.slash then 1 else |a.comps[|a.comps| - 1]|;
            var root := if a.abs then 1 else 0;
            0 <= i < |t| &&
            if i > root && t[i] != SEP then t[..i - 1] == Render(Parent(a)) else t[..i] == Render(Parent(a))
  {
    if a.slash { CutSlash(a); } else { CutName(a); }
  }

  lemma CutSlash(a: Plain)
    requires a.Valid() && a.slash
    ensures var t := Render(a); t != "" && t[|t| - 1] == SEP && t[..|t| - 1] == Render(Parent(a))
  {
    hide Join, IsName;
    assert Render(a) == Render(Parent(a)) + [SEP];
  }

  lemma CutName(a: Plain)
    requires a.Valid() && a.comps != [] && !a.slash
    ensures var t, last := Render(a), a.comps[|a.comps| - 1];
            var i := |t| - |last|;
            && 0 <= i < |t| && t[i] != SEP
            && if |a.comps| > 1 then i > (if a.abs then 1 else 0) && t[..i - 1] == Render(Parent(a))
               else i == (if a.abs then 1 else 0) && t[..i] == Render(Parent(a))
  {
    var last := a.comps[|a.comps| - 1];
    assert last in a.comps;
    NameIsPlain(last);
    RenderOfDropLast(a);
    hide IsName;
    if |a.comps| > 1 {
      assert DropLast(a).comps[0] in a.comps;
      JoinIsPlain(DropLast(a).comps);
      hide Join;
      assert Render(DropLast(a)) == Render(Parent(a)) + [SEP];
    } else {
      JoinOne("");
      assert Render(DropLast(a)) == Render(Parent(a));
    }
  }

  /** `parent_path() / filename()` is the path again whenever there is something behind the root. */
  lemma ParentAndFilename(p: string)
    requires PlainText(p) && HasRelativePath(p)
    ensures AppendPath(ParentPath(p), Filename(p)) == p
  {
    hide Filename, ParentPath, HasRelativePath, AppendPath, Join, PlainText;
    var a := Parse(p);
    RenderOfParse(p);
    FilenameOfRender(a);
    ParentOfRender(a);
    AppendFilename(a);
  }

  lemma AppendFilename(a: Plain)
    requires a.Valid() && a.comps != []
    ensures AppendPath(Render(Parent(a)), if a.slash then "" else a.comps[|a.comps| - 1]) == Render(a)
  {
    hide AppendPath, Join;
    var last := a.comps[|a.comps| - 1];
    var file := if a.slash then EMPTY else Plain(false, [last], false);
    JoinOne(last);
    assert Render(file) == if a.slash then "" else last;
    assert Parent(a).Valid() && file.Valid();
    AppendOfRender(Parent(a), file);
    assert a.comps[..|a.comps| - 1] + [last] == a.comps;
    assert Append(Parent(a), file) == a;
  }
}
