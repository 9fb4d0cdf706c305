/** Exactly when `lexically_relative` leads from the base to the path. */
module PathLeadsBack {
  import opened SeqFacts
  import opened PathText
  import opened PathPlain
  import opened PathAppend
  import opened PathResolve
  import opened PathRelative

  /** One element, from a directory that is `w` below or above `u`. */
  lemma WalkOne(u: Dir, w: Dir, e: string)
    requires e != [SEP] && !w.abs
    ensures var v := Walk(w, e);
            && !v.abs
            && (e == ".." && w.names == [] ==> v == Dir(false, w.ups + 1, []) && u.(names := u.names + w.names) == u)
            && (e != ".." || w.names != [] ==>
                  v.ups == w.ups && Walk(u.(names := u.names + w.names), e) == u.(names := u.names + v.names))
  {
    if e == ".." && w.names == [] {
      assert u.names + [] == u.names;
    } else if e == ".." {
      assert (u.names + w.names)[..|u.names + w.names| - 1] == u.names + w.names[..|w.names| - 1];
    } else if e != "." && e != "" {
      assert u.names + w.names + [e] == u.names + (w.names + [e]);
    }
  }

  /** What a walk from `d` comes to that is, from the start, `w`. */
  function Moved(d: Dir, w: Dir): Dir {
    var u := WalkAll(d, Ups(w.ups));
    u.(names := u.names + w.names)
  }

  lemma MovedOne(d: Dir, w: Dir, e: string)
    requires e != [SEP] && !w.abs
    ensures !Walk(w, e).abs && Walk(Moved(d, w), e) == Moved(d, Walk(w, e))
  {
    hide WalkAll;
    WalkOne(WalkAll(d, Ups(w.ups)), w, e);
    if e == ".." && w.names == [] {
      WalkUpOnce(d, w.ups + 1);
      var v := WalkAll(d, Ups(w.ups + 1));
      assert v.names + [] == v.names;
    }
  }

  /** Walking along elements without a root is going up and then down as far as their own walk says. */
  lemma {:induction false} WalkByResolve(d: Dir, es: seq<string>)
    requires forall e <- es :: e != [SEP]
    ensures !Resolve(es).abs && WalkAll(d, es) == Moved(d, Resolve(es))
    decreases |es|
  {
    if es == [] {
      assert d.names + [] == d.names;
    } else {
      hide WalkAll, Walk, Moved, Ups;
      var init, last := es[..|es| - 1], es[|es| - 1];
      assert last in es && forall e <- init :: e in es;
      WalkByResolve(d, init);
      WalkLast(d, es);
      WalkLast(START, es);
      MovedOne(d, Resolve(init), last);
    }
  }

  lemma WalkLast(d: Dir, es: seq<string>)
    requires es != []
    ensures WalkAll(d, es) == Walk(WalkAll(d, es[..|es| - 1]), es[|es| - 1])
  {
  }

  lemma {:induction false} UpsInParts(m: nat, n: nat)
    ensures Ups(m) + Ups(n) == Ups(m + n)
  {
    if n > 0 { UpsInParts(m, n - 1); }
  }

  /** From two directories the same elements lead to the same directory exactly when going up as many
      parents as they climb does. */
  lemma SameWalk(d: Dir, e: Dir, es: seq<string>)
    requires forall x <- es :: x != [SEP]
    ensures var m := Resolve(es).ups;
            WalkAll(d, es) == WalkAll(e, es) <==> WalkAll(d, Ups(m)) == WalkAll(e, Ups(m))
  {
    hide WalkAll;
    WalkByResolve(d, es);
    WalkByResolve(e, es);
    var m, names := Resolve(es).ups, Resolve(es).names;
    var u, v := WalkAll(d, Ups(m)), WalkAll(e, Ups(m));
    if u.names + names == v.names + names {
      assert u.names == (u.names + names)[..|u.names + names| - |names|];
      assert v.names == (v.names + names)[..|v.names + names| - |names|];
    }
  }

  /** For a path and a base that are both absolute or both relative: when the base has no more `..` than
      names behind the elements they share, `base / p.lexically_relative(base)` is the directory of `p`
      if and only if going up from the base leads to the shared directory, or would after the parents
      that the rest of `p` climbs. With more `..` there is no relative path at all. */
  lemma RelativeLeadsBackExactly(p: string, base: string)
    requires PlainText(p) && PlainText(base) && IsAbsolute(p) == IsAbsolute(base)
    ensures var es, bs := Elements(p), Elements(base);
            var k := Mismatch(es, bs);
            var count, climbed := Depth(bs[k..]), Resolve(es[k..]).ups;
            if count < 0 then LexicallyRelative(p, base) == ""
            else Resolve(Elements(AppendPath(base, LexicallyRelative(p, base)))) == Resolve(es)
                 <==> WalkAll(Resolve(bs), Ups(count + climbed)) == WalkAll(Resolve(es[..k]), Ups(climbed))
  {
    hide AppendPath, Elements, Join, Mismatch, AppendAll, Depth, WalkAll, Relative, LexicallyRelative;
    var a, b := Parse(p), Parse(base);
    RenderOfParse(p);
    RenderOfParse(base);
    ElementsOfRender(a);
    ElementsOfRender(b);
    RenderIsPlain(a);
    RenderIsPlain(b);
    RelativeOfRender(a, b);
    var r := Relative(a, b);
    RenderIsPlain(r);
    AppendMeansWalk(base, Render(r));
    ElementsOfRender(r);
    var k := Mismatch(a.Elements(), b.Elements());
    if Depth(b.Elements()[k..]) < 0 {
      NoRelative(a, b);
    } else {
      hide Plain.Elements;
      RelativeWalksExactly(a, b);
    }
  }

  lemma NoRelative(a: Plain, b: Plain)
    requires a.Valid() && b.Valid() && a.abs == b.abs
    requires Depth(b.Elements()[Mismatch(a.Elements(), b.Elements())..]) < 0
    ensures Render(Relative(a, b)) == ""
  {
    hide Depth;
    var bs, k := b.Elements(), Mismatch(a.Elements(), b.Elements());
    if k == |bs| {
      assert bs[k..] == [];
      DepthOfNone();
    }
    assert Render(EMPTY) == "";
  }

  lemma RelativeWalksExactly(a: Plain, b: Plain)
    requires a.Valid() && b.Valid() && a.abs == b.abs
    requires Depth(b.Elements()[Mismatch(a.Elements(), b.Elements())..]) >= 0
    ensures var es, bs := a.Elements(), b.Elements();
            var k := Mismatch(es, bs);
            var count, climbed := Depth(bs[k..]), Resolve(es[k..]).ups;
            WalkAll(Resolve(bs), Relative(a, b).Elements()) == Resolve(es)
            <==> WalkAll(Resolve(bs), Ups(count + climbed)) == WalkAll(Resolve(es[..k]), Ups(climbed))
  {
    hide Mismatch, Depth, PlainText, IsName, WalkAll, Plain.Elements, Relative;
    SharesRoot(a, b);
    var es, bs := a.Elements(), b.Elements();
    var k := Mismatch(es, bs);
    var count, climbed := Depth(bs[k..]), Resolve(es[k..]).ups;
    RelativeWalksUpAndDown(a, b, Resolve(bs));
    WalkConcat(START, es[..k], es[k..]);
    assert es[..k] + es[k..] == es;
    SameWalk(WalkAll(Resolve(bs), Ups(count)), Resolve(es[..k]), es[k..]);
    WalkConcat(Resolve(bs), Ups(count), Ups(climbed));
    UpsInParts(count, climbed);
  }

  // ------------------------------------------------------------------ the elements of the result

  /** One path is absolute and the other is not: there is no relative path. */
  lemma NoRelativeAcrossRoots(p: string, base: string)
    requires PlainText(p) && PlainText(base) && IsAbsolute(p) != IsAbsolute(base)
    ensures LexicallyRelative(p, base) == ""
  {
  }

  /** Nothing but a trailing separator is left of a path, and nothing is to be climbed. */
  predicate NothingToWalk(count: int, rest: seq<string>) {
    count == 0 && (rest == [] || rest == [""])
  }

  /** The result for any two plain paths. It is never absolute. It is empty if and only if just one of
      the two is absolute, or the base has more `..` than names behind the shared elements, or there is
      nothing to walk although the paths differ. It is `.` for equal paths, and otherwise has one `..` for
      each of these names and then the elements of the path behind the shared ones. */
  lemma RelativeElementsExactly(p: string, base: string)
    requires PlainText(p) && PlainText(base)
    ensures PlainText(LexicallyRelative(p, base)) && !IsAbsolute(LexicallyRelative(p, base))
    ensures IsAbsolute(p) != IsAbsolute(base) ==> LexicallyRelative(p, base) == ""
    ensures IsAbsolute(p) == IsAbsolute(base) ==>
              var es, bs := Elements(p), Elements(base);
              var k := Mismatch(es, bs);
              var r, count := LexicallyRelative(p, base), Depth(bs[k..]);
              && (es == bs ==> r == ".")
              && (r == "" <==> es != bs && (count < 0 || NothingToWalk(count, es[k..])))
              && (es != bs && r != "" ==> Elements(r) == Ups(count) + es[k..])
  {
    if IsAbsolute(p) != IsAbsolute(base) {
      NoRelativeAcrossRoots(p, base);
    } else {
      hide Elements, Join, Mismatch, Depth, Relative, LexicallyRelative, Render, PlainText, Plain.Elements;
      var a, b := Parse(p), Parse(base);
      RenderOfParse(p);
      RenderOfParse(base);
      RenderIsPlain(a);
      RenderIsPlain(b);
      ElementsOfRender(a);
      ElementsOfRender(b);
      RelativeOfRender(a, b);
      var r := Relative(a, b);
      RenderIsPlain(r);
      ElementsOfRender(r);
      RelativeOfNames(a, b);
    }
  }

  lemma RelativeOfNames(a: Plain, b: Plain)
    requires a.Valid() && b.Valid() && a.abs == b.abs
    ensures var es, bs := a.Elements(), b.Elements();
            var k := Mismatch(es, bs);
            var r, count := Relative(a, b), Depth(bs[k..]);
            && !r.abs
            && (es == bs ==> Render(r) == ".")
            && (r == EMPTY <==> es != bs && (count < 0 || NothingToWalk(count, es[k..])))
            && (es != bs && r != EMPTY ==> r.Elements() == Ups(count) + es[k..])
  {
    hide Mismatch, Depth, PlainText, IsName, Plain.Elements, Render;
    SharesRoot(a, b);
    RenderSmall();
    var es, bs := a.Elements(), b.Elements();
    var k := Mismatch(es, bs);
    MismatchOfEqual(a, b);
    CutAt(es, k);
    CutAt(bs, k);
    if !(k == |es| && k == |bs|) && Depth(bs[k..]) >= 0 {
      BehindElements(a, k);
      var rest, r := Behind(a, k), Relative(a, b);
      RelativeElements(r);
      var up := Ups(Depth(bs[k..]));
      hide Behind;
      assert r.comps == up + rest.comps;
      if r.comps == [] {
        assert |up| == 0 && |rest.comps| == 0;
      } else {
        NothingLeft(up, rest, es[k..]);
        JoinAssociates(up, rest.comps, if rest.slash then [""] else []);
      }
    }
  }

  lemma NothingLeft(up: seq<string>, rest: Plain, es: seq<string>)
    requires up + rest.comps != [] && es == rest.comps + (if rest.slash then [""] else [])
    requires forall c <- rest.comps :: IsName(c)
    ensures !(up == [] && (es == [] || es == [""]))
  {
    if up == [] && rest.comps != [] { assert rest.comps[0] in rest.comps && es[0] == rest.comps[0]; }
  }

  /** All elements are shared exactly when there are the same elements. */
  lemma MismatchOfEqual(a: Plain, b: Plain)
    requires a.Valid() && b.Valid()
    ensures var es, bs := a.Elements(), b.Elements();
            es == bs <==> Mismatch(es, bs) == |es| == |bs|
  {
    hide Mismatch, PlainText, Plain.Elements;
    ElementTexts(a);
    ElementTexts(b);
    var es, bs := a.Elements(), b.Elements();
    MismatchIsSharedPrefix(es, bs);
    assert es[..|es|] == es && bs[..|bs|] == bs;
    if es == bs { MismatchIs(es, bs, |es|); }
  }

  /** A base that goes above the shared elements and down another way: `b` is no way from there to the path. */
  lemma ClimbingBaseExample()
    ensures Resolve(Elements("/a/b")) == Dir(true, 0, ["a", "b"])
    ensures var r := LexicallyRelative("/a/b", "/a/../c");
            Resolve(Elements(AppendPath("/a/../c", r))) != Resolve(Elements("/a/b"))
  {
    hide AppendPath, Join, LexicallyRelative, Depth, Mismatch, WalkAll, PlainText, Elements, Walk, Ups;
    var a, b := Plain(true, ["a", "b"], false), Plain(true, ["a", "..", "c"], false);
    var es, bs := [[SEP], "a", "b"], [[SEP], "a", "..", "c"];
    ExampleTexts();
    RenderIsPlain(a);
    RenderIsPlain(b);
    ElementsOfRender(a);
    ElementsOfRender(b);
    assert a.Elements() == es && b.Elements() == bs;
    hide Render, Plain.Elements;
    ExampleShares(es, bs);
    ExampleWalks(es, bs);
    RelativeLeadsBackExactly("/a/b", "/a/../c");
  }

  lemma ExampleTexts()
    ensures Render(Plain(true, ["a", "b"], false)) == "/a/b"
    ensures Render(Plain(true, ["a", "..", "c"], false)) == "/a/../c"
  {
    JoinConcat(["a"], ["b"]);
    JoinConcat(["a"], [".."]);
    JoinConcat(["a", ".."], ["c"]);
    assert ["a"] + ["b"] == ["a", "b"] && ["a"] + [".."] == ["a", ".."] && ["a", ".."] + ["c"] == ["a", "..", "c"];
  }

  lemma ExampleShares(es: seq<string>, bs: seq<string>)
    requires es == [[SEP], "a", "b"] && bs == [[SEP], "a", "..", "c"]
    ensures Mismatch(es, bs) == 2 && Depth(bs[2..]) == 0
  {
    assert es[..2] == bs[..2];
    MismatchIs(es, bs, 2);
    hide SamePath, Depth;
    assert bs[2..] == ["..", "c"] && ["..", "c"][..1] == [".."] && [".."][..0] == [];
    DepthLast(["..", "c"]);
    DepthLast([".."]);
    DepthOfNone();
  }

  lemma ExampleWalks(es: seq<string>, bs: seq<string>)
    requires es == [[SEP], "a", "b"] && bs == [[SEP], "a", "..", "c"]
    ensures Resolve(es) == Dir(true, 0, ["a", "b"]) && Resolve(es[2..]).ups == 0
    ensures WalkAll(Resolve(bs), Ups(0)) == Dir(true, 0, ["c"]) && WalkAll(Resolve(es[..2]), Ups(0)) == Dir(true, 0, ["a"])
  {
    hide WalkAll, Walk, Ups;
    SomeWalks("a", "b", "c");
    assert es[2..] == ["b"] && es[..2] == [[SEP], "a"];
    NoUps();
    WalkNothing(Resolve(bs));
    WalkNothing(Resolve(es[..2]));
  }

  lemma RootAndNames(names: seq<string>)
    requires forall e <- names :: e !in ["", ".", "..", [SEP]]
    ensures Resolve([[SEP]] + names) == Dir(true, 0, names)
  {
    hide Walk, WalkAll;
    WalkNothing(START);
    assert [] + [[SEP]] == [[SEP]];
    WalkMore(START, [], [SEP]);
    WalkRoot(START);
    WalkConcat(START, [[SEP]], names);
    WalkNames(Dir(true, 0, []), names);
    assert [] + names == names;
  }

  lemma UpAndDown(a: string, c: string)
    requires c !in ["", ".", "..", [SEP]]
    ensures WalkAll(Dir(true, 0, [a]), ["..", c]) == Dir(true, 0, [c])
  {
    hide Walk, WalkAll;
    var d := Dir(true, 0, [a]);
    WalkNothing(d);
    assert [] + [".."] == [".."] && [".."] + [c] == ["..", c];
    WalkMore(d, [], "..");
    WalkUp(d);
    assert [a][..0] == [] && [] + [c] == [c];
    WalkMore(d, [".."], c);
    WalkDown(Dir(true, 0, []), c);
  }

  /** Walks along `/a`, `/a/b`, `b` and `/a/../c`, for any names. */
  lemma SomeWalks(a: string, b: string, c: string)
    requires forall e <- [a, b, c] :: e !in ["", ".", "..", [SEP]]
    ensures Resolve([[SEP], a]) == Dir(true, 0, [a]) && Resolve([[SEP], a, b]) == Dir(true, 0, [a, b])
    ensures Resolve([b]).ups == 0
    ensures Resolve([[SEP], a, "..", c]) == Dir(true, 0, [c])
  {
    hide Walk, WalkAll;
    assert a in [a, b, c] && b in [a, b, c] && c in [a, b, c];
    assert [[SEP], a] == [[SEP]] + [a] && [[SEP], a, b] == [[SEP]] + [a, b];
    RootAndNames([a]);
    RootAndNames([a, b]);
    WalkNames(START, [b]);
    assert [[SEP], a, "..", c] == [[SEP], a] + ["..", c];
    WalkConcat(START, [[SEP], a], ["..", c]);
    UpAndDown(a, c);
  }
}
