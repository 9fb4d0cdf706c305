/** `lexically_relative`: appended to its base, the result leads to the path. */
module PathRelative {
  import opened SeqFacts
  import opened PathText
  import opened PathPlain
  import opened PathAppend
  import opened PathIterate
  import opened PathCompare
  import opened PathResolve
  import opened PathNormal

  // ------------------------------------------------------------------ what /= means

  lemma AppendedElements(a: Plain, b: Plain)
    requires a.Valid() && b.Valid() && !b.abs
    ensures WalkAll(START, Append(a, b).Elements()) == WalkAll(WalkAll(START, a.Elements()), b.Elements())
  {
    var c := Append(a, b);
    var core := (if a.abs then [[SEP]] else []) + a.comps;
    WalkSlash(START, core, a.slash);
    if b.comps == [] {
      WalkSlash(START, core, c.slash);
      assert b.Elements() == [];
    } else {
      assert c.Elements() == core + b.Elements();
      WalkConcat(START, core, b.Elements());
    }
  }

  /** A trailing separator does not change the directory. */
  lemma WalkSlash(d: Dir, es: seq<string>, slash: bool)
    ensures WalkAll(d, es + (if slash then [""] else [])) == WalkAll(d, es)
  {
    if slash {
      assert (es + [""])[..|es|] == es;
    } else {
      assert es + [] == es;
    }
  }

  lemma WalkFromRoot(d: Dir, es: seq<string>)
    requires es != [] && es[0] == [SEP]
    ensures WalkAll(d, es) == WalkAll(START, es)
    decreases |es|
  {
  }

  /** The directory of `p / q` is where the elements of `q` lead from the directory of `p`. */
  lemma AppendMeansWalk(p: string, q: string)
    requires PlainText(p) && PlainText(q)
    ensures PlainText(AppendPath(p, q))
    ensures Resolve(Elements(AppendPath(p, q))) == WalkAll(Resolve(Elements(p)), Elements(q))
  {
    hide AppendPath, Elements, Join;
    var a, b := Parse(p), Parse(q);
    RenderOfParse(p);
    RenderOfParse(q);
    AppendOfRender(a, b);
    RenderIsPlain(Append(a, b));
    ElementsOfRender(a);
    ElementsOfRender(b);
    ElementsOfRender(Append(a, b));
    if b.abs {
      WalkFromRoot(Resolve(Elements(p)), b.Elements());
    } else {
      AppendedElements(a, b);
    }
  }

  // ------------------------------------------------------------------ counting levels

  /** `bs` never goes above where it starts. */
  ghost predicate Steady(bs: seq<string>) {
    forall i :: 0 <= i <= |bs| ==> Depth(bs[..i]) >= 0
  }

  function Level(e: string): int {
    if e == "." || e == "" then 0 else if e == ".." then -1 else 1
  }

  lemma {:induction false} DepthLast(bs: seq<string>)
    requires bs != [] && forall e <- bs :: PlainText(e)
    ensures Depth(bs) == Depth(bs[..|bs| - 1]) + Level(bs[|bs| - 1])
    decreases |bs|
  {
    hide SamePath;
    assert bs[0] in bs;
    SamePathIsEqual(bs[0], ".");
    SamePathIsEqual(bs[0], "");
    SamePathIsEqual(bs[0], "..");
    if |bs| > 1 {
      assert forall e <- bs[1..] :: e in bs;
      DepthLast(bs[1..]);
      assert bs[1..][..|bs| - 2] == bs[..|bs| - 1][1..];
    }
  }

  /** Elements that never go above their start only add names, as many as `Depth` counts. */
  lemma {:induction false} WalkSteady(d: Dir, bs: seq<string>) returns (down: seq<string>)
    requires Steady(bs) && forall e <- bs :: PlainText(e) && e != [SEP]
    ensures WalkAll(d, bs) == d.(names := d.names + down)
    ensures |down| == Depth(bs)
    decreases |bs|
  {
    hide Depth, PlainText;
    if bs == [] {
      down := [];
      assert bs[..0] == bs;
      assert d.names + [] == d.names;
      DepthOfNone();
    } else {
      var init, last := bs[..|bs| - 1], bs[|bs| - 1];
      assert forall i :: 0 <= i <= |init| ==> init[..i] == bs[..i];
      assert forall e <- init :: e in bs;
      assert last in bs;
      down := WalkSteady(d, init);
      DepthLast(bs);
      assert bs[..|bs|] == bs;
      if last == ".." {
        assert (d.names + down)[..|d.names + down| - 1] == d.names + down[..|down| - 1];
        down := down[..|down| - 1];
      } else if last != "." && last != "" {
        assert d.names + down + [last] == d.names + (down + [last]);
        down := down + [last];
      }
    }
  }

  lemma DepthOfNone()
    ensures Depth([]) == 0
  {
  }

  lemma {:induction false} WalkBack(d: Dir, n: nat)
    requires n <= |d.names|
    ensures WalkAll(d, Ups(n)) == d.(names := d.names[..|d.names| - n])
  {
    hide WalkAll, Ups, Walk;
    if n == 0 {
      WalkNothing(d);
      NoUps();
      assert d.names[..|d.names|] == d.names;
    } else {
      WalkBack(d, n - 1);
      WalkUpOnce(d, n);
      var e := d.(names := d.names[..|d.names| - (n - 1)]);
      WalkUp(e);
      TakeOfTake(d.names, |d.names| - n, |d.names| - (n - 1));
    }
  }

  lemma NoUps()
    ensures Ups(0) == []
  {
  }

  lemma WalkUpOnce(d: Dir, n: nat)
    requires n > 0
    ensures WalkAll(d, Ups(n)) == Walk(WalkAll(d, Ups(n - 1)), "..")
  {
  }

  // ------------------------------------------------------------------ the text of the result

  lemma ElementTexts(a: Plain)
    requires a.Valid()
    ensures forall e <- a.Elements() :: PlainText(e)
    ensures forall i :: 0 < i < |a.Elements()| ==> a.Elements()[i] != [SEP]
    ensures a.abs <==> a.Elements() != [] && a.Elements()[0] == [SEP]
  {
    PlainElements(a);
    var es := a.Elements();
    forall e | e in es ensures PlainText(e) {
      var i :| 0 <= i < |es| && es[i] == e;
      if IsName(es[i]) { NameIsPlain(es[i]); }
    }
    if !a.abs && a.comps != [] { assert a.comps[0] in a.comps; }
  }

  lemma {:induction false} MismatchIsSharedPrefix(es: seq<string>, bs: seq<string>)
    requires (forall e <- es :: PlainText(e)) && (forall e <- bs :: PlainText(e))
    ensures var k := Mismatch(es, bs); es[..k] == bs[..k]
    ensures es != [] && bs != [] && es[0] == bs[0] ==> Mismatch(es, bs) > 0
    decreases |es|
  {
    hide SamePath, PlainText;
    if es != [] && bs != [] {
      First(es);
      First(bs);
      SamePathIsEqual(es[0], bs[0]);
      if es[0] == bs[0] {
        MismatchIsSharedPrefix(es[1..], bs[1..]);
        var k := Mismatch(es[1..], bs[1..]);
        TakeMore(es, k);
        TakeMore(bs, k);
      }
    }
  }

  /** What is left of a path behind some elements, the root among them. */
  function Behind(a: Plain, k: nat): Plain
    requires a.Valid() && k <= |a.Elements()| && (a.abs ==> k > 0)
  {
    var j := k - if a.abs then 1 else 0;
    if j >= |a.comps| then Plain(false, [], a.slash && j == |a.comps|)
    else Plain(false, a.comps[j..], a.slash)
  }

  lemma BehindElements(a: Plain, k: nat)
    requires a.Valid() && k <= |a.Elements()| && (a.abs ==> k > 0)
    ensures var r := Behind(a, k);
            && a.Elements()[k..] == r.comps + (if r.slash then [""] else [])
            && !r.abs
            && forall c <- r.comps :: IsName(c)
  {
  }

  /** The loops that append `count` times `..` and then the rest of the path. */
  lemma RelativeText(count: nat, rest: Plain)
    requires !rest.abs && forall c <- rest.comps :: IsName(c)
    ensures var es := rest.comps + (if rest.slash then [""] else []);
            var comps := Ups(count) + rest.comps;
            var r := Plain(false, comps, rest.slash && comps != []);
            && r.Valid()
            && AppendAll(AppendAll("", seq(count, _ => "..")), es) == Render(r)
  {
    hide AppendPath, Join;
    assert forall i :: 0 <= i < count ==> Ups(count)[i] in Ups(count);
    assert seq(count, _ => "..") == Ups(count);
    JoinOne("");
    assert Render(EMPTY) == "";
    AppendNames(EMPTY, Ups(count), false);
    assert Ups(count) + [] == Ups(count) && [] + Ups(count) == Ups(count);
    var u := Plain(false, Ups(count), false);
    assert forall c <- Ups(count) :: c == ".." && IsName(c);
    if Ups(count) + rest.comps != [] {
      AppendNames(u, rest.comps, rest.slash);
    } else if rest.slash {
      AppendPlain("", "");
      assert ([] + [""])[1..] == [];
    }
  }

  /** The directory reached from the base: up to the shared prefix, then down the rest. */
  lemma WalkOverBase(shared: seq<string>, bs: seq<string>, es: seq<string>)
    requires Steady(bs) && forall e <- bs :: PlainText(e) && e != [SEP]
    ensures Depth(bs) >= 0
    ensures WalkAll(Resolve(shared + bs), Ups(Depth(bs)) + es) == Resolve(shared + es)
  {
    hide PlainText, Depth, Steady;
    var d := Resolve(shared);
    var down := WalkSteady(d, bs);
    WalkConcat(START, shared, bs);
    WalkConcat(START, shared, es);
    WalkConcat(Resolve(shared + bs), Ups(|down|), es);
    WalkBack(Resolve(shared + bs), |down|);
    assert (d.names + down)[..|d.names|] == d.names;
  }

  /** For a path and a base that are both absolute or both relative, where the base does not go
      above the elements it shares with the path: `base / p.lexically_relative(base)` is the
      directory of `p`. A base without `..` always qualifies. */
  lemma RelativeLeadsBack(p: string, base: string)
    requires PlainText(p) && PlainText(base) && IsAbsolute(p) == IsAbsolute(base)
    requires Steady(Elements(base)[Mismatch(Elements(p), Elements(base))..])
    ensures PlainText(LexicallyRelative(p, base)) && !IsAbsolute(LexicallyRelative(p, base))
    ensures Resolve(Elements(AppendPath(base, LexicallyRelative(p, base)))) == Resolve(Elements(p))
  {
    hide AppendPath, Elements, Join, Steady, Mismatch, AppendAll, Depth;
    var a, b := Parse(p), Parse(base);
    RenderOfParse(p);
    RenderOfParse(base);
    ElementsOfRender(a);
    ElementsOfRender(b);
    RenderIsPlain(a);
    RenderIsPlain(b);
    RelativeOfRender(a, b);
    var r := Relative(a, b);
    RenderIsPlain(r);
    AppendMeansWalk(base, Render(r));
    ElementsOfRender(r);
    RelativeWalk(a, b);
  }

  /** `lexically_relative` on names. */
  function Relative(a: Plain, b: Plain): Plain
    requires a.Valid() && b.Valid() && a.abs == b.abs
  {
    var es, bs := a.Elements(), b.Elements();
    var k := Mismatch(es, bs);
    if k == |es| && k == |bs| then Plain(false, ["."], false)
    else if Depth(bs[k..]) < 0 || (a.abs && k == 0) then EMPTY
    else
      var rest := Behind(a, k);
      var comps := Ups(Depth(bs[k..])) + rest.comps;
      Plain(false, comps, rest.slash && comps != [])
  }

  lemma SharesRoot(a: Plain, b: Plain)
    requires a.Valid() && b.Valid() && a.abs == b.abs
    ensures a.abs ==> Mismatch(a.Elements(), b.Elements()) > 0
    ensures var k := Mismatch(a.Elements(), b.Elements());
            && a.Elements()[..k] == b.Elements()[..k]
            && (forall e <- b.Elements()[k..] :: PlainText(e) && e != [SEP])
            && forall e <- a.Elements()[k..] :: e != [SEP]
  {
    hide PlainText, Mismatch;
    ElementTexts(a);
    ElementTexts(b);
    var es, bs := a.Elements(), b.Elements();
    MismatchIsSharedPrefix(es, bs);
    var k := Mismatch(es, bs);
    forall e | e in bs[k..] ensures PlainText(e) && e != [SEP] {
      var i :| 0 <= i < |bs[k..]| && bs[k..][i] == e;
      assert bs[k + i] == e && bs[k + i] in bs;
    }
  }

  /** The text of the result, with the two checks of the roots passed. */
  lemma RelativeIs(p: string, base: string)
    requires PlainText(p) && PlainText(base) && IsAbsolute(p) == IsAbsolute(base)
    ensures var es, bs := Elements(p), Elements(base);
            var k := Mismatch(es, bs);
            LexicallyRelative(p, base) ==
            if k == |es| && k == |bs| then "."
            else if Depth(bs[k..]) < 0 then ""
            else AppendAll(AppendAll("", seq(Depth(bs[k..]), _ => "..")), es[k..])
  {
    hide Elements, Mismatch, AppendAll, Depth, PlainText, SamePath, RootName;
    RootOfPlain(p);
    RootOfPlain(base);
    SamePathIsEqual("", "");
  }

  lemma RelativeOfRender(a: Plain, b: Plain)
    requires a.Valid() && b.Valid() && a.abs == b.abs
    ensures Relative(a, b).Valid()
    ensures LexicallyRelative(Render(a), Render(b)) == Render(Relative(a, b))
  {
    hide LexicallyRelative, Elements, Plain.Elements, Join, Mismatch, AppendAll, Depth, PlainText, Behind;
    RenderIsPlain(a);
    RenderIsPlain(b);
    RelativeIs(Render(a), Render(b));
    ElementsOfRender(a);
    ElementsOfRender(b);
    SharesRoot(a, b);
    RenderSmall();
    var es, bs := a.Elements(), b.Elements();
    var k := Mismatch(es, bs);
    hide Render;
    if !(k == |es| && k == |bs|) && Depth(bs[k..]) >= 0 {
      BehindElements(a, k);
      RelativeText(Depth(bs[k..]), Behind(a, k));
    }
  }

  lemma RenderSmall()
    ensures Render(EMPTY) == "" && EMPTY.Valid()
    ensures Render(Plain(false, ["."], false)) == "." && Plain(false, ["."], false).Valid()
  {
    JoinOne(".");
  }

  lemma DotElements()
    ensures Plain(false, ["."], false).Elements() == ["."]
    ensures forall d :: WalkAll(d, ["."]) == d
  {
  }

  lemma WalkWithoutSlash(d: Dir, r: Plain, rest: Plain, ups: seq<string>)
    requires !r.abs && r.comps == ups + rest.comps
    ensures WalkAll(d, r.Elements()) == WalkAll(d, ups + (rest.comps + (if rest.slash then [""] else [])))
  {
    hide WalkAll;
    WalkSlash(d, r.comps, rest.slash);
    WalkSlash(d, r.comps, r.slash);
    RelativeElements(r);
    JoinAssociates(ups, rest.comps, if rest.slash then [""] else []);
  }

  lemma RelativeElements(r: Plain)
    requires !r.abs
    ensures r.Elements() == r.comps + if r.slash then [""] else []
  {
  }

  /** Up from the base, then along the rest of the path. */
  lemma RelativeWalksUpAndDown(a: Plain, b: Plain, d: Dir)
    requires a.Valid() && b.Valid() && a.abs == b.abs
    requires Depth(b.Elements()[Mismatch(a.Elements(), b.Elements())..]) >= 0
    ensures var k := Mismatch(a.Elements(), b.Elements());
            WalkAll(d, Relative(a, b).Elements())
            == WalkAll(WalkAll(d, Ups(Depth(b.Elements()[k..]))), a.Elements()[k..])
  {
    hide Mismatch, Depth, PlainText, IsName, WalkAll, Plain.Elements, Ups, Behind;
    SharesRoot(a, b);
    var es, bs := a.Elements(), b.Elements();
    var k := Mismatch(es, bs);
    WalkConcat(d, Ups(Depth(bs[k..])), es[k..]);
    if k == |es| && k == |bs| {
      DotElements();
      NothingBehind(es, bs, k, d);
    } else {
      BehindElements(a, k);
      WalkWithoutSlash(d, Relative(a, b), Behind(a, k), Ups(Depth(bs[k..])));
    }
  }

  lemma NothingBehind(es: seq<string>, bs: seq<string>, k: nat, d: Dir)
    requires k == |es| == |bs|
    ensures es[k..] == [] && Depth(bs[k..]) == 0 && WalkAll(WalkAll(d, Ups(Depth(bs[k..]))), es[k..]) == d
  {
    assert es[k..] == [] && bs[k..] == [];
  }

  lemma RelativeWalk(a: Plain, b: Plain)
    requires a.Valid() && b.Valid() && a.abs == b.abs
    requires Steady(b.Elements()[Mismatch(a.Elements(), b.Elements())..])
    ensures WalkAll(Resolve(b.Elements()), Relative(a, b).Elements()) == Resolve(a.Elements())
  {
    hide Mismatch, Depth, Steady, PlainText, IsName, Plain.Elements, WalkAll, Relative, Ups;
    SharesRoot(a, b);
    var es, bs := a.Elements(), b.Elements();
    var k := Mismatch(es, bs);
    WalkOverBase(bs[..k], bs[k..], es[k..]);
    CutAt(es, k);
    CutAt(bs, k);
    RelativeWalksUpAndDown(a, b, Resolve(bs));
    WalkConcat(Resolve(bs), Ups(Depth(bs[k..])), es[k..]);
  }

  /** A base without `..` never goes above what it shares with the path. */
  lemma NoDotDotIsSteady(bs: seq<string>)
    requires forall e <- bs :: PlainText(e) && e != ".."
    ensures Steady(bs)
  {
    forall i | 0 <= i <= |bs| ensures Depth(bs[..i]) >= 0 {
      assert forall e <- bs[..i] :: e in bs;
      DepthWithoutDotDot(bs[..i]);
    }
  }

  lemma {:induction false} DepthWithoutDotDot(bs: seq<string>)
    requires forall e <- bs :: PlainText(e) && e != ".."
    ensures Depth(bs) >= 0
    decreases |bs|
  {
    hide PlainText;
    if bs != [] {
      assert forall e <- bs[..|bs| - 1] :: e in bs;
      assert bs[|bs| - 1] in bs;
      DepthLast(bs);
      DepthWithoutDotDot(bs[..|bs| - 1]);
    }
  }

  // ------------------------------------------------------------------ the inverse of /=

  lemma {:induction false} MismatchIs(es: seq<string>, bs: seq<string>, k: nat)
    requires k <= |es| && k <= |bs| && es[..k] == bs[..k]
    requires k == |es| || k == |bs| || es[k] != bs[k]
    requires (forall e <- es :: PlainText(e)) && (forall e <- bs :: PlainText(e))
    ensures Mismatch(es, bs) == k
    decreases k
  {
    hide SamePath, PlainText;
    if es != [] && bs != [] {
      assert es[0] in es && bs[0] in bs;
      SamePathIsEqual(es[0], bs[0]);
      if k > 0 {
        assert es[0] == es[..k][0] && bs[0] == bs[..k][0];
        assert (forall e <- es[1..] :: e in es) && (forall e <- bs[1..] :: e in bs);
        assert es[1..][..k - 1] == es[..k][1..] && bs[1..][..k - 1] == bs[..k][1..];
        MismatchIs(es[1..], bs[1..], k - 1);
      }
    }
  }

  lemma RelativeOfAppend(b: Plain, q: Plain)
    requires b.Valid() && q.Valid() && !q.abs && q.comps != []
    ensures Append(b, q).Valid() && Relative(Append(b, q), b) == q
  {
    hide PlainText, Mismatch, Depth, SamePath, IsName;
    var a := Append(b, q);
    ElementTexts(a);
    ElementTexts(b);
    var root := if b.abs then [[SEP]] else [];
    var k := |root + b.comps|;
    AppendedShares(b, q);
    hide Plain.Elements;
    MismatchIs(a.Elements(), b.Elements(), k);
    DepthOfTail(b.Elements()[k..]);
    NoUps();
    assert a.comps[|b.comps|..] == q.comps && [] + q.comps == q.comps;
  }

  /** A path and what it is appended to share the elements of the latter, but for its trailing separator. */
  lemma AppendedShares(b: Plain, q: Plain)
    requires b.Valid() && q.Valid() && !q.abs && q.comps != []
    ensures Append(b, q).Valid()
    ensures var es, bs := Append(b, q).Elements(), b.Elements();
            var k := |(if b.abs then [[SEP]] else []) + b.comps|;
            && k < |es| && k <= |bs| && es[..k] == bs[..k]
            && (k < |bs| ==> es[k] != bs[k])
            && bs[k..] in [[], [""]]
  {
    hide IsName;
    var root := if b.abs then [[SEP]] else [];
    var k := |root + b.comps|;
    var es, bs := Append(b, q).Elements(), b.Elements();
    assert es == (root + b.comps) + (q.comps + if q.slash then [""] else []);
    assert bs == (root + b.comps) + if b.slash then [""] else [];
    assert es[k] == q.comps[0];
    NotEmpty(q.comps[0], q);
  }

  lemma NotEmpty(c: string, q: Plain)
    requires q.Valid() && c in q.comps
    ensures c != ""
  {
  }

  lemma DepthOfTail(bs: seq<string>)
    requires bs == [] || bs == [""]
    ensures Depth(bs) == 0
  {
  }

  /** Taking the base away again: what was appended to it comes back, character by character. */
  lemma RelativeUndoesAppend(base: string, r: string)
    requires PlainText(base) && PlainText(r) && r != "" && !IsAbsolute(r)
    ensures LexicallyRelative(AppendPath(base, r), base) == r
  {
    hide AppendPath, LexicallyRelative, Join, Append, Relative;
    var b, q := Parse(base), Parse(r);
    RenderOfParse(base);
    RenderOfParse(r);
    RenderIsPlain(q);
    assert q.comps != [] by { if q.comps == [] { NoElements(q); } }
    AppendOfRender(b, q);
    RelativeOfAppend(b, q);
    AppendKeepsRoot(b, q);
    RelativeOfRender(Append(b, q), b);
  }

  lemma AppendKeepsRoot(b: Plain, q: Plain)
    requires !q.abs
    ensures Append(b, q).abs == b.abs
  {
  }
}
