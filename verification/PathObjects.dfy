/** The classes `path` and `path::iterator`: the loops of include/filesystem.h on their own state. */
module PathObjects {
  import opened PathText
  import opened PathPlain
  import opened PathAppend
  import opened PathIterate
  import opened PathCompare
  import opened PathResolve
  import opened PathNormal
  import opened PathRelative
  import opened PathLeadsBack
  import opened PathPostProcess

  class PathIterator {
    const text: string
    var pos: nat
    var current: string

    ghost predicate Valid()
      reads this
    {
      pos <= |text| && current == Current(text, pos)
    }

    constructor (text: string, pos: nat)
      requires pos <= |text|
      ensures Valid() && this.text == text && this.pos == pos
    {
      this.text, this.pos, this.current := text, pos, Current(text, pos);
    }

    /** `increment`, with its loop over redundant separators. */
    method StepOver() returns (i: nat)
      requires Valid() && pos < |text|
      ensures i == Increment(text, pos)
    {
      i := pos + 1;
      if text[pos] == SEP {
        if i < |text| && text[i] == SEP {
          if pos == 0 && !(i + 1 < |text| && text[i + 1] == SEP) {
            i := Find(text, SEP, i + 1);
          } else {
            while i < |text| && text[i] == SEP
              invariant pos < i <= |text|
              invariant SkipSeparators(text, i) == SkipSeparators(text, pos + 1)
            {
              i := i + 1;
            }
          }
        }
      } else if pos == 0 && i < |text| && text[i] == ':' {
        i := i + 1;
      } else {
        i := Find(text, SEP, i);
      }
    }

    /** `operator++`. */
    method Forward()
      requires Valid() && pos < |text|
      modifies this
      ensures Valid() && pos == Next(text, old(pos))
      ensures PlainText(text) && old(ElementStart(text, pos)) ==>
                ElementStart(text, pos) && Decrement(text, pos) == old(pos)
    {
      hide Current, Increment;
      if PlainText(text) && ElementStart(text, pos) { NextThenPrevious(text, pos); }
      var i := StepOver();
      while i < |text| && i != RootPosition(text) && text[i] == SEP && i + 1 != |text|
        invariant i <= |text|
        invariant SkipToElement(text, i) == Next(text, pos)
        decreases |text| - i
      {
        i := i + 1;
      }
      pos := i;
      current := Current(text, pos);
    }

    /** `operator--`. */
    method Backward()
      requires Valid() && pos > 0
      modifies this
      ensures Valid() && pos == Decrement(text, old(pos))
      ensures PlainText(text) && old(ElementStart(text, pos)) ==>
                ElementStart(text, pos) && Next(text, pos) == old(pos)
    {
      hide Current, Next;
      if PlainText(text) && ElementStart(text, pos) { PreviousThenNext(text, pos); }
      pos := Decrement(text, pos);
      current := Current(text, pos);
    }
  }

  class Path {
    var text: string

    /** A path made from any string is post-processed. */
    constructor (source: string)
      ensures text == PostProcess(source)
      ensures ':' !in source && !NetworkStart(source) ==> PlainText(text) && NamesOf(text) == NamesOf(source)
    {
      if ':' !in source && !NetworkStart(source) {
        PostProcessIsPlain(source);
        PostProcessIsNormalisation(source);
      }
      text := PostProcess(source);
    }

    /** `operator/=`. The argument is a value: appending a path to itself is not covered. */
    method DivAssign(p: string)
      modifies this
      ensures text == AppendPath(old(text), p)
      ensures old(PlainText(text)) && PlainText(p) ==>
                && PlainText(text)
                && Resolve(Elements(text)) == WalkAll(old(Resolve(Elements(text))), Elements(p))
    {
      hide Current, Next, Filename, Elements, WalkAll;
      if PlainText(text) && PlainText(p) { AppendMeansWalk(text, p); }
      if p == "" {
        if text != "" && text[|text| - 1] != SEP && text[|text| - 1] != ':' {
          text := text + [SEP];
        }
        return;
      }
      if (IsAbsolute(p) && (text != RootName(text) || p != [SEP]))
         || (RootNameLength(p) > 0 && !SamePath(RootName(p), RootName(text))) {
        text := p;
        return;
      }
      if HasRootDirectory(p) {
        text := RootName(text);
      } else if (!HasRootDirectory(text) && IsAbsolute(text)) || HasFilename(text) {
        text := text + [SEP];
      }
      AppendLoop(p);
    }

    /** The element loop of `operator/=`. */
    method AppendLoop(p: string)
      requires p != ""
      modifies this
      ensures text == AppendElements(old(text), p, if RootNameLength(p) > 0 then Next(p, 0) else 0, true)
    {
      hide Current, Next, RootNameLength;
      var iter := new PathIterator(p, 0);
      var first := true;
      if RootNameLength(p) > 0 {
        iter.Forward();
      }
      ghost var all := AppendElements(text, p, iter.pos, true);
      while iter.pos != |p|
        invariant fresh(iter) && iter.text == p && iter.Valid()
        invariant AppendElements(text, p, iter.pos, first) == all
        decreases |p| - iter.pos
      {
        if !first && !EndsWithSep(text) {
          text := text + [SEP];
        }
        first := false;
        text := text + iter.current;
        iter.Forward();
      }
    }

    /** `remove_filename`. */
    method EraseFilename()
      modifies this
      ensures text == RemoveFilename(old(text))
    {
      hide Filename;
      if HasFilename(text) {
        text := text[..|text| - |Filename(text)|];
      }
    }

    /** `compare`, over the network names and then with two cursors. */
    method CompareTo(p: string) returns (r: int)
      ensures r == Compare(text, p)
      ensures PlainText(text) && PlainText(p) ==>
                r == if IsAbsolute(text) != IsAbsolute(p) then if IsAbsolute(text) then 1 else -1
                     else if MixedSigns(text, p) then -CompareElements(Elements(text), Elements(p))
                     else CompareElements(Elements(text), Elements(p))
    {
      hide Elements, CompareElements, MixedSigns;
      if PlainText(text) && PlainText(p) { CompareIsElementwise(text, p); }
      var n1, n2 := RootNameLength(text), RootNameLength(p);
      var rnc := CompareStrings(text[..n1], p[..if n1 < n2 then n1 else n2]);
      if rnc != 0 {
        return rnc;
      }
      if HasRootDirectory(text) != HasRootDirectory(p) {
        return if HasRootDirectory(text) then 1 else -1;
      }
      r := CompareLoop(text[RootPathLength(text)..], p[RootPathLength(p)..]);
    }

    static method CompareLoop(a: string, b: string) returns (r: int)
      ensures r == CompareTails(a, b)
    {
      var i := 0;
      while i < |a| && i < |b| && a[i] == b[i]
        invariant i <= |a| && i <= |b|
        invariant CompareTails(a, b) == CompareTails(a[i..], b[i..])
      {
        assert a[i..][1..] == a[i + 1..] && b[i..][1..] == b[i + 1..];
        i := i + 1;
      }
      if i == |a| {
        return if i == |b| then 0 else -1;
      }
      if i == |b| {
        return 1;
      }
      if a[i] == SEP {
        return -1;
      }
      if b[i] == SEP {
        return 1;
      }
      return if CharBelow(a[i], b[i]) then -1 else 1;
    }

    /** `lexically_normal`. */
    method Normalised() returns (r: string)
      ensures r == LexicallyNormal(text)
      ensures PlainText(text) ==>
                (Resolve(Elements(r)) == Resolve(Elements(text)) <==> !Stumbles(Elements(text)))
    {
      if PlainText(text) { NormalKeepsDirectory(text); }
      hide Current, Next, Stumbles, Resolve, NormalStep;
      var root := RootPath(text);
      var iter := new PathIterator(text, 0);
      var st := Normalising("", false);
      while iter.pos != |text|
        invariant fresh(iter) && iter.text == text && iter.Valid()
        invariant NormalFold(st, ElementsFrom(text, iter.pos), root) == NormalFold(Normalising("", false), Elements(text), root)
        decreases |text| - iter.pos
      {
        FoldFirst(st, text, iter.pos, root);
        st := NormalRound(st, iter.current, root);
        iter.Forward();
      }
      r := if st.dest == "" then "." else st.dest;
    }

    /** The body of the loop of `lexically_normal`, on a path object of its own. */
    static method NormalRound(st: Normalising, e: string, root: string) returns (r: Normalising)
      ensures r == NormalStep(st, e, root)
    {
      hide AppendPath, PostProcess, RemoveFilename, SamePath, Current, Decrement;
      var dest := new Path("");
      dest.text := st.dest;
      if e == "." {
        dest.DivAssign(PostProcess(""));
        return Normalising(dest.text, st.lastDotDot);
      }
      if e == ".." && dest.text != "" {
        if SamePath(dest.text, root) {
          return st;
        }
        if !SamePath(Current(dest.text, Decrement(dest.text, |dest.text|)), "..") {
          if EndsWithSep(dest.text) {
            dest.text := dest.text[..|dest.text| - 1];
          }
          dest.EraseFilename();
          return Normalising(dest.text, st.lastDotDot);
        }
      }
      if !(e == "" && st.lastDotDot) {
        dest.DivAssign(PostProcess(e));
      }
      return Normalising(dest.text, e == "..");
    }

    /** `lexically_relative`. */
    method RelativeTo(base: string) returns (r: string)
      ensures r == LexicallyRelative(text, base)
      ensures PlainText(text) && PlainText(base) ==>
                !IsAbsolute(r) && (IsAbsolute(text) != IsAbsolute(base) ==> r == "")
      ensures PlainText(text) && PlainText(base) && IsAbsolute(text) == IsAbsolute(base) ==>
                var es, bs := Elements(text), Elements(base);
                var k := Mismatch(es, bs);
                var count := Depth(bs[k..]);
                && (r == "" <==> es != bs && (count < 0 || NothingToWalk(count, es[k..])))
                && (r != "" ==> Elements(r) == if es == bs then ["."] else Ups(count) + es[k..])
      ensures PlainText(text) && PlainText(base) && IsAbsolute(text) == IsAbsolute(base)
              && Steady(Elements(base)[Mismatch(Elements(text), Elements(base))..]) ==>
                Resolve(Elements(AppendPath(base, r))) == Resolve(Elements(text))
    {
      hide *;
      if PlainText(text) && PlainText(base) && IsAbsolute(text) == IsAbsolute(base)
         && Steady(Elements(base)[Mismatch(Elements(text), Elements(base))..]) {
        RelativeLeadsBack(text, base);
      }
      if PlainText(text) && PlainText(base) {
        RelativeElementsExactly(text, base);
        ElementsOfDot();
      }
      r := RelativeText(base);
    }

    method RelativeText(base: string) returns (r: string)
      ensures r == LexicallyRelative(text, base)
    {
      hide Current, Next, SamePath, IsAbsolute, HasRootDirectory, Mismatch, AppendAll, Depth, ElementsFrom, RootName;
      if !SamePath(RootName(text), RootName(base)) || IsAbsolute(text) != IsAbsolute(base)
         || (!HasRootDirectory(text) && HasRootDirectory(base)) {
        return "";
      }
      var a := new PathIterator(text, 0);
      var b := new PathIterator(base, 0);
      SkipShared(a, b);
      NextElements(text, a.pos);
      NextElements(base, b.pos);
      if a.pos == |text| && b.pos == |base| {
        return ".";
      }
      var count := CountDepth(b);
      if count < 0 {
        return "";
      }
      r := AppendUpsAndRest(count, a);
    }

    /** The loop over the elements that two paths share. */
    static method SkipShared(a: PathIterator, b: PathIterator)
      requires a != b && a.Valid() && b.Valid()
      modifies a, b
      ensures a.Valid() && b.Valid()
      ensures var es, bs := old(ElementsFrom(a.text, a.pos)), old(ElementsFrom(b.text, b.pos));
              var k := Mismatch(es, bs);
              ElementsFrom(a.text, a.pos) == es[k..] && ElementsFrom(b.text, b.pos) == bs[k..]
    {
      hide Current, Next, SamePath;
      ghost var es, bs := ElementsFrom(a.text, a.pos), ElementsFrom(b.text, b.pos);
      ghost var k := 0;
      while a.pos != |a.text| && b.pos != |b.text| && SamePath(a.current, b.current)
        invariant a.Valid() && b.Valid() && k <= |es| && k <= |bs|
        invariant es[k..] == ElementsFrom(a.text, a.pos) && bs[k..] == ElementsFrom(b.text, b.pos)
        invariant Mismatch(es, bs) == k + Mismatch(es[k..], bs[k..])
        decreases |a.text| - a.pos
      {
        NextElements(a.text, a.pos);
        NextElements(b.text, b.pos);
        assert es[k..][1..] == es[k + 1..] && bs[k..][1..] == bs[k + 1..];
        a.Forward();
        b.Forward();
        k := k + 1;
      }
      NextElements(a.text, a.pos);
      NextElements(b.text, b.pos);
    }

    /** The loop that counts names and `..` elements of the rest of the base. */
    static method CountDepth(b: PathIterator) returns (count: int)
      requires b.Valid()
      modifies b
      ensures count == Depth(old(ElementsFrom(b.text, b.pos)))
    {
      hide Current, Next, SamePath;
      count := 0;
      ghost var all := ElementsFrom(b.text, b.pos);
      while b.pos != |b.text|
        invariant b.Valid()
        invariant count + Depth(ElementsFrom(b.text, b.pos)) == Depth(all)
        decreases |b.text| - b.pos
      {
        NextElements(b.text, b.pos);
        var element := b.current;
        if !SamePath(element, ".") && !SamePath(element, "") && !SamePath(element, "..") {
          count := count + 1;
        } else if SamePath(element, "..") {
          count := count - 1;
        }
        b.Forward();
      }
    }

    /** The two loops that build the result of `lexically_relative`. */
    static method AppendUpsAndRest(count: nat, a: PathIterator) returns (r: string)
      requires a.Valid()
      modifies a
      ensures r == old(AppendAll(AppendAll("", seq(count, _ => "..")), ElementsFrom(a.text, a.pos)))
    {
      hide Current, Next, PostProcess, AppendPath;
      var result := new Path("");
      result.text := "";
      assert seq(0, _ => "..") == [];
      for i := 0 to count
        invariant fresh(result) && a.Valid() && a.pos == old(a.pos) && result.text == AppendAll("", seq(i, _ => ".."))
      {
        result.DivAssign("..");
        OneMoreUp(i);
      }
      ghost var all := AppendAll(result.text, ElementsFrom(a.text, a.pos));
      while a.pos != |a.text|
        invariant fresh(result) && a.Valid()
        invariant AppendAll(result.text, ElementsFrom(a.text, a.pos)) == all
        decreases |a.text| - a.pos
      {
        NextElements(a.text, a.pos);
        result.DivAssign(a.current);
        a.Forward();
      }
      r := result.text;
    }
  }

  lemma ElementsOfDot()
    ensures Elements(".") == ["."]
  {
    RenderSmall();
    ElementsOfRender(Plain(false, ["."], false));
  }

  lemma NextElements(s: string, pos: nat)
    requires pos <= |s|
    ensures pos == |s| ==> ElementsFrom(s, pos) == []
    ensures pos < |s| ==> ElementsFrom(s, pos) == [Current(s, pos)] + ElementsFrom(s, Next(s, pos))
    ensures pos < |s| ==> ElementsFrom(s, pos)[1..] == ElementsFrom(s, Next(s, pos))
  {
  }

  lemma FoldFirst(st: Normalising, s: string, pos: nat, root: string)
    requires pos < |s|
    ensures NormalFold(st, ElementsFrom(s, pos), root)
            == NormalFold(NormalStep(st, Current(s, pos), root), ElementsFrom(s, Next(s, pos)), root)
  {
  }

  lemma {:induction false} AppendAllLast(s: string, es: seq<string>, e: string)
    ensures AppendAll(s, es + [e]) == AppendPath(AppendAll(s, es), e)
    decreases |es|
  {
    hide AppendPath;
    if es == [] {
      assert [] + [e] == [e];
      assert [e][1..] == [];
    } else {
      assert (es + [e])[1..] == es[1..] + [e];
      AppendAllLast(AppendPath(s, es[0]), es[1..], e);
    }
  }

  lemma OneMoreUp(n: nat)
    ensures AppendAll("", seq(n + 1, _ => "..")) == AppendPath(AppendAll("", seq(n, _ => "..")), "..")
  {
    hide AppendPath;
    AppendAllLast("", seq(n, _ => ".."), "..");
    assert seq(n + 1, _ => "..") == seq(n, _ => "..") + [".."];
  }
}
