/** `lexically_normal` twice: when the result is normalised already. */
module PathNormalTwice {
  import opened PathText
  import opened PathPlain
  import opened PathAppend
  import opened PathResolve
  import opened PathNormal

  // ------------------------------------------------------------------ going on from what the loop has

  function RunFrom(n: Norm, es: seq<string>): Norm {
    if es == [] then n else RunFrom(n, es[..|es| - 1]).Step(es[|es| - 1])
  }

  lemma {:induction false} RunInParts(es: seq<string>, k: nat)
    requires k <= |es|
    ensures Run(es) == RunFrom(Run(es[..k]), es[k..])
    decreases |es|
  {
    hide Norm.Step;
    if k == |es| {
      assert es[..k] == es && es[k..] == [];
    } else {
      var init := es[..|es| - 1];
      RunInParts(init, k);
      assert init[..k] == es[..k] && es[k..][..|es[k..]| - 1] == init[k..];
    }
  }

  lemma {:induction false} RunFromInParts(n: Norm, es: seq<string>, k: nat)
    requires k <= |es|
    ensures RunFrom(n, es) == RunFrom(RunFrom(n, es[..k]), es[k..])
    decreases |es|
  {
    hide Norm.Step;
    if k == |es| {
      assert es[..k] == es && es[k..] == [];
    } else {
      var init := es[..|es| - 1];
      RunFromInParts(n, init, k);
      assert init[..k] == es[..k] && es[k..][..|es[k..]| - 1] == init[k..];
    }
  }

  /** The elements of a relative path. */
  predicate RelativeElements(es: seq<string>) {
    forall i :: 0 <= i < |es| ==> IsName(es[i]) || (es[i] == "" && i + 1 == |es|)
  }

  lemma RelativeParts(es: seq<string>, k: nat)
    requires RelativeElements(es) && k <= |es|
    ensures RelativeElements(es[..k]) && RelativeElements(es[k..])
  {
  }

  /** Back on parents above the start, every further `..` up there takes one of them away. */
  lemma {:induction false} Undoing(n: Norm, es: seq<string>)
    requires n.Valid() && !n.abs && n.names == [] && n.slash
    requires RelativeElements(es) && Resolve(es).ups <= n.ups
    ensures var r := RunFrom(n, es);
            && r.Valid() && !r.abs
            && r.names == Resolve(es).names && r.ups == n.ups - Resolve(es).ups
            && (Resolve(es).ups < n.ups && r.names == [] ==> r.slash)
    ensures !Resolve(es).abs
    decreases |es|
  {
    if es != [] {
      var init, last := es[..|es| - 1], es[|es| - 1];
      RelativeParts(es, |init|);
      assert Resolve(es) == Walk(Resolve(init), last);
      Undoing(n, init);
      StepKeepsValid(RunFrom(n, init), last);
    }
  }

  /** With nothing left, the loop goes on as from its start. */
  lemma {:induction false} StartsOver(n: Norm, es: seq<string>)
    requires n == NOTHING.(lastDotDot := n.lastDotDot) && RelativeElements(es)
    ensures var r, q := RunFrom(n, es), Run(es);
            r == q || (r == NOTHING.(lastDotDot := r.lastDotDot) && q == NOTHING.(lastDotDot := q.lastDotDot))
    decreases |es|
  {
    if es != [] {
      RelativeParts(es, |es| - 1);
      StartsOver(n, es[..|es| - 1]);
    }
  }

  /** Behind leading `..` elements there is a separator unless the last of them was just put there. */
  lemma {:induction false} JustClimbed(es: seq<string>)
    requires RelativeElements(es)
    ensures var n := Run(es);
            && n.Valid() && !n.abs
            && (n.names == [] && n.ups > 0 && !n.slash && (es == [] || es[|es| - 1] != "") ==> n.lastDotDot)
    decreases |es|
  {
    if es != [] {
      var init := es[..|es| - 1];
      RelativeParts(es, |init|);
      assert init != [] ==> init[|init| - 1] == es[|init| - 1];
      JustClimbed(init);
      StepKeepsValid(Run(init), es[|es| - 1]);
    }
  }

  // ------------------------------------------------------------------ the rounds of a path

  /** The first place from `i` on where the path is back on parents above its start, or its end. */
  function FirstBack(es: seq<string>, i: nat): (k: nat)
    requires i <= |es|
    ensures i <= k <= |es|
    ensures forall j :: i <= j < k ==> !BackOnParents(es[..j])
    ensures k < |es| ==> BackOnParents(es[..k])
    decreases |es| - i
  {
    if i == |es| || BackOnParents(es[..i]) then i else FirstBack(es, i + 1)
  }

  /** The first place from `i` on where `n` parents are climbed, or the end. */
  function FirstClimb(es: seq<string>, n: nat, i: nat): (k: nat)
    requires i <= |es|
    ensures i <= k <= |es|
    ensures forall j :: i <= j < k ==> Resolve(es[..j]).ups < n
    ensures k < |es| ==> Resolve(es[..k]).ups >= n
    decreases |es| - i
  {
    if i == |es| || Resolve(es[..i]).ups >= n then i else FirstClimb(es, n, i + 1)
  }

  /** A path goes in rounds: it climbs to some parents above its start and comes back on them, by a `.` or
      by taking a name away; when it has then climbed as many parents again, nothing is left of the
      round and the next one begins. The path ends on parents when it ends inside a round, behind its
      first coming back, with no name left. */
  predicate EndsOnParents(es: seq<string>)
    decreases |es|
  {
    var k := FirstBack(es, 0);
    && BackOnParents(es[..k])
    && var n, rest := Resolve(es[..k]).ups, es[k..];
    if Resolve(rest).ups < n then Resolve(rest).names == [] else EndsOnParents(rest[FirstClimb(rest, n, 0)..])
  }

  /** Where `n` parents are climbed, it is exactly `n`, and no name is left. */
  lemma ClimbIs(es: seq<string>, n: nat)
    requires RelativeElements(es) && n > 0 && Resolve(es).ups >= n
    ensures var d := Resolve(es[..FirstClimb(es, n, 0)]);
            d.ups == n && d.names == []
  {
    var k := FirstClimb(es, n, 0);
    assert es[..|es|] == es;
    assert es[..0] == [];
    assert k > 0;
    assert es[..k][..k - 1] == es[..k - 1];
    assert Resolve(es[..k]) == Walk(Resolve(es[..k - 1]), es[k - 1]);
  }

  lemma NoBackNoStumble(es: seq<string>)
    requires forall j :: 0 <= j < |es| ==> !BackOnParents(es[..j])
    ensures !Stumbles(es)
  {
    hide BackOnParents;
  }

  lemma RelativeIsPath(es: seq<string>)
    requires RelativeElements(es)
    ensures PathElements(es)
    ensures es != [] ==> es[0] != [SEP]
  {
  }

  /** Without a coming back there is no separator behind leading `..` elements. */
  lemma NeverBack(es: seq<string>)
    requires RelativeElements(es) && forall j :: 0 <= j <= |es| ==> !BackOnParents(es[..j])
    ensures !(Run(es).slash && Run(es).names == [])
  {
    hide BackOnParents, Resolve;
    RelativeIsPath(es);
    NoBackNoStumble(es);
    RunFollowsWalk(es);
    assert es[..|es|] == es;
    if es != [] && es[|es| - 1] == "" {
      var init := es[..|es| - 1];
      RelativeParts(es, |init|);
      RelativeIsPath(init);
      StumblesLast(es);
      RunFollowsWalk(init);
      JustClimbed(init);
      assert init == [] || es[|init| - 1] == init[|init| - 1];
    }
  }

  /** The loop ends with a separator behind leading `..` elements exactly on paths that end on parents. */
  lemma {:induction false} RunEndsOnParents(es: seq<string>)
    requires RelativeElements(es)
    ensures EndsOnParents(es) <==> Run(es).slash && Run(es).names == []
    decreases |es|
  {
    hide Stumbles, Norm.Step, Run, RunFrom;
    var k := FirstBack(es, 0);
    var pre, rest := es[..k], es[k..];
    if !BackOnParents(pre) {
      NeverBack(es);
    } else {
      RelativeParts(es, k);
      RelativeIsPath(pre);
      assert forall j :: 0 <= j < k ==> pre[..j] == es[..j];
      NoBackNoStumble(pre);
      RunFollowsWalk(pre);
      RunInParts(es, k);
      var n := Run(pre);
      if Resolve(rest).ups < n.ups {
        Undoing(n, rest);
      } else {
        var j := FirstClimb(rest, n.ups, 0);
        ClimbIs(rest, n.ups);
        RelativeParts(rest, j);
        Undoing(n, rest[..j]);
        RunFromInParts(n, rest, j);
        StartsOver(RunFrom(n, rest[..j]), rest[j..]);
        RunEndsOnParents(rest[j..]);
      }
    }
  }

  /** How many parents above its start the normal form of a relative path has: what the last round has
      climbed, less what it has taken away again. */
  function ParentsLeft(es: seq<string>): nat
    decreases |es|
  {
    var k := FirstBack(es, 0);
    if !BackOnParents(es[..k]) then Resolve(es).ups
    else
      var n, rest := Resolve(es[..k]).ups, es[k..];
      if Resolve(rest).ups < n then n - Resolve(rest).ups else ParentsLeft(rest[FirstClimb(rest, n, 0)..])
  }

  lemma {:induction false} RunParentsLeft(es: seq<string>)
    requires RelativeElements(es)
    ensures Run(es).ups == ParentsLeft(es)
    decreases |es|
  {
    hide Stumbles, Norm.Step, Run, RunFrom;
    var k := FirstBack(es, 0);
    var pre, rest := es[..k], es[k..];
    RelativeParts(es, k);
    RelativeIsPath(pre);
    assert forall j :: 0 <= j < k ==> pre[..j] == es[..j];
    NoBackNoStumble(pre);
    RunFollowsWalk(pre);
    if !BackOnParents(pre) {
      assert pre == es;
    } else {
      RunInParts(es, k);
      var n := Run(pre);
      if Resolve(rest).ups < n.ups {
        Undoing(n, rest);
      } else {
        var j := FirstClimb(rest, n.ups, 0);
        ClimbIs(rest, n.ups);
        RelativeParts(rest, j);
        Undoing(n, rest[..j]);
        RunFromInParts(n, rest, j);
        StartsOver(RunFrom(n, rest[..j]), rest[j..]);
        RunParentsLeft(rest[j..]);
      }
    }
  }

  /** The directory the normal form means, for every plain path: the names are those of the walk, and the
      parents are those left by the last round. */
  lemma NormalDirectory(p: string)
    requires PlainText(p)
    ensures Resolve(Elements(LexicallyNormal(p))) ==
            Dir(IsAbsolute(p), if IsAbsolute(p) then 0 else ParentsLeft(Elements(p)), Resolve(Elements(p)).names)
  {
    hide LexicallyNormal, Elements, ParentsLeft, Join, Run, Stumbles, Resolve;
    var a := Parse(p);
    RenderOfParse(p);
    RenderIsPlain(a);
    ElementsOfRender(a);
    NormalOfRender(a);
    var n := Run(a.Elements());
    ElementsOfRender(Result(n));
    ResolveResult(n);
    PlainElements(a);
    RunFollowsWalk(a.Elements());
    RelativeUnlessRoot(a);
    if !a.abs { RunParentsLeft(a.Elements()); }
  }

  lemma RelativeUnlessRoot(a: Plain)
    requires a.Valid()
    ensures !a.abs ==> RelativeElements(a.Elements())
  {
    PlainElements(a);
    if !a.abs && a.comps != [] { assert a.comps[0] in a.comps; }
  }

  /** A path that does not stumble has one round only: it ends on parents when it is just back on them,
      apart from a trailing separator. */
  lemma OneRound(es: seq<string>)
    requires RelativeElements(es) && !Stumbles(es)
    ensures EndsOnParents(es) <==>
            BackOnParents(if es != [] && es[|es| - 1] == "" then es[..|es| - 1] else es)
  {
    hide BackOnParents, EndsOnParents, Stumbles, RelativeElements, PathElements;
    RunEndsOnParents(es);
    RelativeIsPath(es);
    if es != [] && es[|es| - 1] == "" {
      var init := es[..|es| - 1];
      RelativeParts(es, |init|);
      RelativeIsPath(init);
      StumblesLast(es);
      LastIsName(es);
      BackIsUp(init);
      RunFollowsWalk(init);
      JustClimbed(init);
    } else {
      BackIsUp(es);
      RunFollowsWalk(es);
    }
  }

  lemma LastIsName(es: seq<string>)
    requires RelativeElements(es)
    ensures forall i :: 0 <= i < |es| - 1 ==> es[i] != ""
  {
  }

  lemma BackIsUp(es: seq<string>)
    ensures BackOnParents(es) ==> Resolve(es).names == [] && Resolve(es).ups > 0
  {
  }

  lemma {:induction false} AbsoluteNeverBack(es: seq<string>)
    requires PathElements(es) && es != [] && es[0] == [SEP]
    ensures !EndsOnParents(es)
    ensures !(Run(es).slash && Run(es).names == [])
  {
    hide PathElements, Stumbles;
    var k := FirstBack(es, 0);
    if k > 0 {
      PrefixOfPath(es, k);
      AbsoluteStays(es[..k]);
    }
    AbsoluteStays(es);
    RunFollowsWalk(es);
    NoClimbNoStumble(es);
  }

  lemma PrefixOfPath(es: seq<string>, k: nat)
    requires PathElements(es) && 0 < k <= |es|
    ensures PathElements(es[..k]) && es[..k][0] == es[0]
  {
  }

  // ------------------------------------------------------------------ the loop on its own result

  lemma RunUps(n: nat)
    ensures Run(Ups(n)) == Norm(false, n, [], false, n > 0)
  {
  }

  lemma {:induction false} RunNames(head: seq<string>, names: seq<string>)
    requires !Run(head).slash && Run(head).names == []
    requires forall c <- names :: IsName(c) && c != "." && c != ".."
    ensures var n := Run(head);
            Run(head + names) == Norm(n.abs, n.ups, names, false, names == [] && n.lastDotDot)
    decreases |names|
  {
    hide Run;
    if names == [] {
      assert head + names == head;
    } else {
      var init, last := names[..|names| - 1], names[|names| - 1];
      assert (forall c <- init :: c in names) && last in names;
      RunNames(head, init);
      assert names == init + [last];
      assert (head + names)[..|head + names| - 1] == head + init;
      RunLast(head + names);
    }
  }

  lemma RunLast(es: seq<string>)
    requires es != []
    ensures Run(es) == Run(es[..|es| - 1]).Step(es[|es| - 1])
  {
  }

  /** Run on its own result only loses a separator behind leading `..` elements. */
  lemma RunResult(n: Norm)
    requires n.Valid()
    ensures Result(Run(Result(n).Elements())) ==
            if n.slash && n.names == [] then Result(n.(slash := false)) else Result(n)
  {
    var es := Result(n).Elements();
    var tail := if n.slash then [""] else [];
    if n.ToPlain() == EMPTY {
      assert n.ups == 0 && n.names == [] by { assert |Ups(n.ups) + n.names| == 0; }
      assert es == ["."] && es[..0] == [];
      assert NOTHING.ToPlain().comps == [];
    } else {
      var head := if n.abs then [[SEP]] else Ups(n.ups);
      assert es == head + n.names + tail;
      assert Run(head) == Norm(n.abs, n.ups, [], false, n.ups > 0) by {
        if n.abs { assert head[..0] == []; } else { RunUps(n.ups); }
      }
      RunNames(head, n.names);
      if n.slash {
        assert es[..|es| - 1] == head + n.names;
      } else {
        assert es == head + n.names;
      }
    }
  }

  /** Normalising twice is normalising once, except for paths that end on parents: their normal form ends
      in `../`, and normalising again takes that separator away. Absolute paths, and relative ones that
      end at or below their start, never do. */
  lemma NormalIdempotent(p: string)
    requires PlainText(p)
    ensures var r := LexicallyNormal(p);
            LexicallyNormal(r) == r <==> !EndsOnParents(Elements(p))
    ensures var es := Elements(LexicallyNormal(p));
            EndsOnParents(Elements(p)) <==> |es| > 1 && es[|es| - 1] == "" && es[|es| - 2] == ".."
    ensures StaysDown(p) ==> !EndsOnParents(Elements(p))
  {
    hide Stumbles, LexicallyNormal, Elements, EndsOnParents, Join, StaysDown;
    var a := Parse(p);
    RenderOfParse(p);
    ElementsOfRender(a);
    NormalOfRender(a);
    var n := Run(a.Elements());
    ElementsOfRender(Result(n));
    NormalOfRender(Result(n));
    RunResult(n);
    RenderInjective(Result(n), Result(Run(Result(n).Elements())));
    DotDotLast(n);
    LoopEndsOnParents(a);
    if StaysDown(p) { NoParentsLeft(p, a); }
  }

  lemma LoopEndsOnParents(a: Plain)
    requires a.Valid()
    ensures EndsOnParents(a.Elements()) <==> Run(a.Elements()).slash && Run(a.Elements()).names == []
  {
    hide EndsOnParents, Run;
    PlainElements(a);
    if a.abs { AbsoluteNeverBack(a.Elements()); } else { RunEndsOnParents(a.Elements()); }
  }

  lemma NoParentsLeft(p: string, a: Plain)
    requires PlainText(p) && StaysDown(p) && a.Valid() && Elements(p) == a.Elements()
    ensures !EndsOnParents(a.Elements())
  {
    hide EndsOnParents, Stumbles, Elements;
    StaysDownNoStumble(p);
    LoopEndsOnParents(a);
    RunFollowsWalk(a.Elements());
  }

  lemma DotDotLast(n: Norm)
    requires n.Valid()
    ensures var es := Result(n).Elements();
            (n.slash && n.names == []) <==> (|es| > 1 && es[|es| - 1] == "" && es[|es| - 2] == "..")
    ensures n.slash && n.names == [] <==> Result(n.(slash := false)) != Result(n) && n.names == []
  {
    var es := Result(n).Elements();
    if n.ToPlain() == EMPTY {
      assert |Ups(n.ups) + n.names| == 0;
    } else {
      LastElement(Result(n));
      if n.slash && n.names != [] { assert n.names[|n.names| - 1] in n.names; }
    }
  }

  /** The normal form of `../a/..` is `../`, and that of `../` is `..`. */
  lemma TwiceExample()
    ensures LexicallyNormal("../a/..") == "../"
    ensures LexicallyNormal("../") == ".."
  {
    hide LexicallyNormal, Join, Run, PlainText;
    var a, b := Plain(false, ["..", "a", ".."], false), Plain(false, [".."], true);
    TwiceText();
    assert a.Elements() == ["..", "a", ".."] && b.Elements() == ["..", ""];
    TwiceRun();
    NormalOfRender(a);
    NormalOfRender(b);
  }

  lemma TwiceText()
    ensures Render(Plain(false, ["..", "a", ".."], false)) == "../a/.."
    ensures Render(Plain(false, [".."], true)) == "../" && Render(Plain(false, [".."], false)) == ".."
  {
    JoinConcat([".."], ["a"]);
    assert [".."] + ["a"] == ["..", "a"];
    JoinConcat(["..", "a"], [".."]);
    assert ["..", "a"] + [".."] == ["..", "a", ".."];
  }

  lemma TwiceRun()
    ensures Run(["..", "a", ".."]) == Norm(false, 1, [], true, false)
    ensures Run(["..", ""]) == Norm(false, 1, [], false, false)
    ensures Result(Norm(false, 1, [], true, false)) == Plain(false, [".."], true)
    ensures Result(Norm(false, 1, [], false, false)) == Plain(false, [".."], false)
  {
    assert ["..", "a", ".."][..2] == ["..", "a"] && ["..", "a"][..1] == [".."] && ["..", ""][..1] == [".."];
    ExampleStart();
    assert Run([".."]) == Norm(false, 1, [], false, true) by { assert [".."][..0] == []; }
    assert Ups(1) == [".."];
    assert [".."] + [] == [".."];
  }
}
