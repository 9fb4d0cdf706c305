/** `lexically_normal`: when it keeps the directory a path means, and what its result looks like. */
module PathNormal {
  import opened PathText
  import opened PathPlain
  import opened PathAppend
  import opened PathIterate
  import opened PathCompare
  import opened PathResolve

  // ------------------------------------------------------------------ the loop on names

  /** What the loop builds: `..` elements, then names, then possibly a separator. */
  datatype Norm = Norm(abs: bool, ups: nat, names: seq<string>, slash: bool, lastDotDot: bool) {
    predicate Valid() {
      && (forall c <- names :: IsName(c) && c != "." && c != "..")
      && (abs ==> ups == 0)
      && (slash ==> ups > 0 || names != [])
    }

    function ToPlain(): Plain {
      Plain(abs, Ups(ups) + names, slash)
    }

    /** With a separator behind it unless nothing but the root is left. */
    function Slashed(): Norm {
      this.(slash := ups > 0 || names != [])
    }

    function Step(e: string): Norm {
      if e == "." then Slashed()
      else if e == ".." then
        if names != [] then this.(names := names[..|names| - 1]).Slashed()
        else if abs then this
        else if slash then this.(ups := if ups > 0 then ups - 1 else 0).Slashed()
        else Norm(false, ups + 1, [], false, true)
      else if e == "" then (if lastDotDot then this else Slashed()).(lastDotDot := false)
      else if e == [SEP] then Norm(true, 0, [], false, false)
      else Norm(abs, ups, names + [e], false, false)
    }
  }

  const NOTHING := Norm(false, 0, [], false, false)

  function Run(es: seq<string>): Norm {
    if es == [] then NOTHING else Run(es[..|es| - 1]).Step(es[|es| - 1])
  }

  /** The element lists of plain paths: the root only first, the empty element only last. */
  predicate PathElements(es: seq<string>) {
    forall i :: 0 <= i < |es| ==>
      IsName(es[i]) || (es[i] == [SEP] && i == 0) || (es[i] == "" && i + 1 == |es|)
  }

  lemma PlainElements(a: Plain)
    requires a.Valid()
    ensures PathElements(a.Elements())
  {
  }

  lemma StepKeepsValid(n: Norm, e: string)
    requires n.Valid() && (IsName(e) || e == "" || (e == [SEP] && n == NOTHING))
    ensures n.Step(e).Valid()
  {
  }

  // ------------------------------------------------------------------ the text loop computes Run

  lemma NormRender(n: Norm)
    requires n.Valid()
    ensures n.ToPlain().Valid()
    ensures PlainText(Render(n.ToPlain()))
    ensures n.slash || n.ups > 0 || n.names != [] <==> n.ToPlain().comps != []
  {
    assert forall c <- Ups(n.ups) :: c == ".." && IsName(c);
    RenderIsPlain(n.ToPlain());
  }

  ghost function State(n: Norm): Normalising {
    Normalising(Render(n.ToPlain()), n.lastDotDot)
  }

  /** What removing a trailing separator and the last name leaves. */
  lemma PopOfRender(a: Plain)
    requires a.Valid() && a.comps != []
    ensures var t := Render(a);
            RemoveFilename(if EndsWithSep(t) then t[..|t| - 1] else t) == Render(DropLast(a))
  {
    hide RemoveFilename, Join, IsName;
    RenderIsPlain(a);
    var b := a.(slash := false);
    RemoveFilenameOfRender(b);
    if a.slash { assert Render(a) == Render(b) + [SEP]; }
  }

  lemma LastElementOfRender(a: Plain)
    requires a.Valid() && a.comps != []
    ensures SamePath(Current(Render(a), Decrement(Render(a), |Render(a)|)), "..")
            <==> (!a.slash && a.comps[|a.comps| - 1] == "..")
  {
    var last := if a.slash then "" else a.comps[|a.comps| - 1];
    FilenameOfRender(a);
    assert Current(Render(a), Decrement(Render(a), |Render(a)|)) == last;
    if !a.slash { NameIsPlain(last); }
    SamePathIsEqual(last, "..");
  }

  /** Taking the last element off the loop's value. */
  lemma PopNorm(n: Norm)
    requires n.Valid() && (n.names != [] || (n.slash && n.ups > 0))
    ensures DropLast(n.ToPlain()) == n.Step("..").ToPlain() && n.Step("..").lastDotDot == n.lastDotDot
  {
  }

  lemma PushText(n: Norm, e: string)
    requires n.Valid() && IsName(e)
    ensures AppendSource(Render(n.ToPlain()), e) == Render(Plain(n.abs, n.ToPlain().comps + [e], false))
  {
    NameIsPlain(e);
    SourceIsPath(Render(n.ToPlain()), e);
    NormRender(n);
    AppendName(n.ToPlain(), e);
  }

  lemma SlashText(n: Norm)
    requires n.Valid()
    ensures AppendSource(Render(n.ToPlain()), "") == Render(n.Slashed().ToPlain())
  {
    hide AppendPath, Join;
    SourceIsPath(Render(n.ToPlain()), "");
    NormRender(n);
    JoinOne("");
    assert Render(EMPTY) == "";
    AppendOfRender(n.ToPlain(), EMPTY);
  }

  lemma StepDotDot(n: Norm, root: string)
    requires n.Valid() && root == if n.abs then [SEP] else ""
    ensures NormalStep(State(n), "..", root) == State(n.Step(".."))
  {
    hide AppendSource, SamePath, Join, IsName, NormalStep;
    var a := n.ToPlain();
    NormRender(n);
    if a.comps != [] {
      StepUp(n, root);
    } else {
      StepAtStart(n, root);
    }
  }

  /** `..` with nothing behind the root or the start. */
  lemma StepAtStart(n: Norm, root: string)
    requires n.Valid() && root == (if n.abs then [SEP] else "") && n.ToPlain().comps == []
    ensures NormalStep(State(n), "..", root) == State(n.Step(".."))
  {
  }

  /** `..` with something there: the last name is taken away, or another `..` is put behind. */
  lemma StepUp(n: Norm, root: string)
    requires n.Valid() && root == (if n.abs then [SEP] else "") && n.ToPlain().comps != []
    ensures NormalStep(State(n), "..", root) == State(n.Step(".."))
  {
    hide RemoveFilename, AppendSource, SamePath, Current, Decrement, Join, IsName, PlainText;
    var a := n.ToPlain();
    NormRender(n);
    NotTheRoot(a, root);
    PopOfRender(a);
    LastElementOfRender(a);
    LastOfNorm(n);
    hide Render;
    if n.names != [] || n.slash {
      PopNorm(n);
    } else {
      assert Ups(n.ups) + [] + [".."] == Ups(n.ups + 1) + [];
      PushText(n, "..");
    }
  }

  lemma NotTheRoot(a: Plain, root: string)
    requires a.Valid() && a.comps != [] && root == if a.abs then [SEP] else ""
    ensures Render(a) != "" && !SamePath(Render(a), root)
  {
    hide SamePath, Join;
    RenderIsPlain(a);
    JoinIsPlain(a.comps);
    SamePathIsEqual(Render(a), root);
  }

  /** The last name the loop has: `..` exactly when there are only such. */
  lemma LastOfNorm(n: Norm)
    requires n.Valid() && n.ToPlain().comps != []
    ensures n.ToPlain().comps[|n.ToPlain().comps| - 1] == ".." <==> n.names == []
    ensures n.names == [] ==> n.ups > 0
  {
    if n.names != [] { assert n.names[|n.names| - 1] in n.names; }
  }

  /** One round of the loop on text is one step on names. */
  lemma StepText(n: Norm, e: string, root: string)
    requires n.Valid() && (IsName(e) || e == "" || (e == [SEP] && n == NOTHING))
    requires e != [SEP] ==> root == if n.abs then [SEP] else ""
    ensures NormalStep(State(n), e, root) == State(n.Step(e))
    ensures n.Step(e).Valid()
  {
    hide AppendSource, SamePath, Current, Decrement, Join;
    StepKeepsValid(n, e);
    if e == ".." {
      StepDotDot(n, root);
    } else if e == "." || e == "" {
      SlashText(n);
    } else if e == [SEP] {
      RootText();
    } else {
      PushText(n, e);
      assert Ups(n.ups) + n.names + [e] == Ups(n.ups) + (n.names + [e]);
    }
  }

  lemma RootText()
    ensures AppendSource(Render(NOTHING.ToPlain()), [SEP]) == Render(Norm(true, 0, [], false, false).ToPlain())
  {
    hide AppendPath;
    assert Render(NOTHING.ToPlain()) == "";
    SourceIsPath("", [SEP]);
    RootOfPlain([SEP]);
    AppendPlain("", [SEP]);
  }

  lemma {:induction false} FoldLast(st: Normalising, es: seq<string>, root: string)
    requires es != []
    ensures NormalFold(st, es, root)
            == NormalStep(NormalFold(st, es[..|es| - 1], root), es[|es| - 1], root)
    decreases |es|
  {
    hide NormalStep;
    if |es| == 1 {
      assert NormalFold(NormalStep(st, es[0], root), es[1..], root) == NormalStep(st, es[0], root);
    } else {
      FoldLast(NormalStep(st, es[0], root), es[1..], root);
      assert es[1..][..|es| - 2] == es[..|es| - 1][1..];
    }
  }

  lemma {:induction false} FoldText(es: seq<string>, root: string)
    requires PathElements(es) && root == if es != [] && es[0] == [SEP] then [SEP] else ""
    ensures Run(es).Valid()
    ensures es != [] ==> Run(es).abs == (es[0] == [SEP])
    ensures NormalFold(Normalising("", false), es, root) == State(Run(es))
    decreases |es|
  {
    hide NormalStep;
    if es == [] {
      assert Render(NOTHING.ToPlain()) == "";
    } else {
      var init, last := es[..|es| - 1], es[|es| - 1];
      assert init != [] ==> init[0] == es[0];
      FoldLast(Normalising("", false), es, root);
      FoldText(init, if init == [] then "" else root);
      StepText(Run(init), last, root);
      if init == [] { assert NormalFold(Normalising("", false), [], root) == State(NOTHING); }
    }
  }

  // ------------------------------------------------------------------ which directory the result means

  /** Just back on the parents above the start, by a `.` or by a `..` that took a name away. */
  predicate BackOnParents(es: seq<string>) {
    && es != []
    && Resolve(es).names == [] && Resolve(es).ups > 0
    && (es[|es| - 1] == "." || (es[|es| - 1] == ".." && Resolve(es[..|es| - 1]).names != []))
  }

  /** Some `..` comes just when the walk is back on the parents above its start, as in `../a/../..`. */
  ghost predicate Stumbles(es: seq<string>) {
    exists i :: 0 <= i < |es| && es[i] == ".." && BackOnParents(es[..i])
  }

  lemma StumblesLast(es: seq<string>)
    requires es != []
    ensures Stumbles(es) <==>
            Stumbles(es[..|es| - 1]) || (es[|es| - 1] == ".." && BackOnParents(es[..|es| - 1]))
  {
    hide BackOnParents;
    var init := es[..|es| - 1];
    if Stumbles(es) {
      var i :| 0 <= i < |es| && es[i] == ".." && BackOnParents(es[..i]);
      if i < |init| { assert init[i] == ".." && init[..i] == es[..i]; }
    }
    if Stumbles(init) {
      var i :| 0 <= i < |init| && init[i] == ".." && BackOnParents(init[..i]);
      assert es[i] == ".." && es[..i] == init[..i];
    }
  }

  /** The loop is where the walk is, or two parents short; a separator behind leading `..` elements says
      that the walk is just back on them. */
  ghost predicate Follows(es: seq<string>) {
    var n, d := Run(es), Resolve(es);
    && n.Valid() && n.abs == d.abs && n.names == d.names
    && (if Stumbles(es) then n.ups + 2 <= d.ups else n.ups == d.ups)
    && (!Stumbles(es) && (es == [] || es[|es| - 1] != "") && n.names == [] && n.ups > 0 ==> n.slash == BackOnParents(es))
  }

  lemma FollowsUp(es: seq<string>)
    requires es != [] && es[|es| - 1] == ".." && (|es| > 1 ==> es[|es| - 2] != "")
    requires Follows(es[..|es| - 1])
    ensures Follows(es)
  {
    var init := es[..|es| - 1];
    assert init != [] ==> init[|init| - 1] == es[|es| - 2];
    StumblesLast(es);
    StepKeepsValid(Run(init), "..");
    assert Run(es) == Run(init).Step("..") && Resolve(es) == Walk(Resolve(init), "..");
    hide Stumbles, Run, WalkAll, Norm.Valid;
  }

  lemma FollowsOn(es: seq<string>)
    requires es != [] && es[|es| - 1] != ".."
    requires IsName(es[|es| - 1]) || es[|es| - 1] == "" || (es[|es| - 1] == [SEP] && |es| == 1)
    requires Follows(es[..|es| - 1])
    ensures Follows(es)
  {
    var init, last := es[..|es| - 1], es[|es| - 1];
    StumblesLast(es);
    assert init == [] ==> Run(init) == NOTHING && !Stumbles(es);
    StepKeepsValid(Run(init), last);
    assert Run(es) == Run(init).Step(last) && Resolve(es) == Walk(Resolve(init), last);
    hide Stumbles, Run, WalkAll, Norm.Valid;
  }

  /** The loop keeps pace with the walk until the first stumble; then it is short of parents for good. */
  lemma {:induction false} RunFollowsWalk(es: seq<string>)
    requires PathElements(es)
    ensures Run(es).Valid()
    ensures Run(es).abs == Resolve(es).abs && Run(es).names == Resolve(es).names
    ensures Stumbles(es) ==> Run(es).ups + 2 <= Resolve(es).ups
    ensures !Stumbles(es) ==> Run(es).ups == Resolve(es).ups
    ensures !Stumbles(es) && (es == [] || es[|es| - 1] != "") && Run(es).names == [] && Run(es).ups > 0 ==>
              Run(es).slash == BackOnParents(es)
    ensures es != [] ==> Run(es).abs == (es[0] == [SEP])
    decreases |es|
  {
    if es != [] {
      var init, last := es[..|es| - 1], es[|es| - 1];
      assert init != [] ==> init[0] == es[0];
      RunFollowsWalk(init);
      assert Follows(init);
      if last == ".." { FollowsUp(es); } else { FollowsOn(es); }
      RunRoot(es);
      hide Run, Stumbles, Resolve;
    }
  }

  lemma RunRoot(es: seq<string>)
    requires PathElements(es) && es != []
    requires |es| > 1 ==> Run(es[..|es| - 1]).abs == (es[0] == [SEP])
    ensures Run(es).abs == (es[0] == [SEP])
  {
    assert |es| == 1 ==> es[..0] == [] && Run([]) == NOTHING;
  }

  /** The text `lexically_normal` returns, as a plain path. */
  function Result(n: Norm): Plain {
    if n.ToPlain() == EMPTY then Plain(false, ["."], false) else n.ToPlain()
  }

  lemma RunOfRender(a: Plain)
    requires a.Valid()
    ensures var n := Run(a.Elements());
            && n.Valid()
            && n.abs == a.abs
            && NormalFold(Normalising("", false), Elements(Render(a)), RootPath(Render(a))) == State(n)
  {
    hide Join, Elements, NormalFold;
    var t, es := Render(a), a.Elements();
    RenderIsPlain(a);
    RootOfPlain(t);
    ElementsOfRender(a);
    PlainElements(a);
    assert es != [] && es[0] == [SEP] <==> a.abs by {
      if !a.abs && a.comps != [] { assert a.comps[0] in a.comps; }
    }
    FoldText(es, RootPath(t));
  }

  lemma NormalOfRender(a: Plain)
    requires a.Valid()
    ensures var n := Run(a.Elements());
            && n.Valid() && Result(n).Valid()
            && n.abs == a.abs
            && LexicallyNormal(Render(a)) == Render(Result(n))
  {
    hide NormalFold, Join, Elements, RootPath, Run, Result, Render, Norm.Valid, Norm.ToPlain, Plain.Elements, Plain.Valid;
    RunOfRender(a);
    ResultText(Run(a.Elements()));
  }

  lemma ResultText(n: Norm)
    requires n.Valid()
    ensures Result(n).Valid()
    ensures Render(Result(n)) == if Render(n.ToPlain()) == "" then "." else Render(n.ToPlain())
  {
    hide Join, Norm.Valid, Norm.ToPlain, Render;
    NormRender(n);
    RenderIsPlain(n.ToPlain());
    RenderDot();
  }

  lemma RenderDot()
    ensures Plain(false, ["."], false).Valid() && Render(Plain(false, ["."], false)) == "."
  {
    JoinOne(".");
  }

  lemma WalkUps(n: nat)
    ensures WalkAll(START, Ups(n)) == Dir(false, n, [])
  {
  }

  /** A result means what the loop's value says. */
  lemma ResolveResult(n: Norm)
    requires n.Valid()
    ensures Resolve(Result(n).Elements()) == Dir(n.abs, n.ups, n.names)
  {
    var es := Result(n).Elements();
    if n.ToPlain() == EMPTY {
      assert es == ["."] && es[..0] == [];
      assert n.ups == 0 && n.names == [] by { assert |Ups(n.ups) + n.names| == 0; }
    } else {
      assert es == (if n.abs then [[SEP]] else Ups(n.ups)) + n.names + (if n.slash then [""] else []);
      ResolveParts(n);
    }
  }

  lemma ResolveParts(n: Norm)
    requires n.Valid()
    ensures Resolve((if n.abs then [[SEP]] else Ups(n.ups)) + n.names + (if n.slash then [""] else []))
            == Dir(n.abs, n.ups, n.names)
  {
    var head := if n.abs then [[SEP]] else Ups(n.ups);
    var tail := if n.slash then [""] else [];
    assert WalkAll(START, head) == Dir(n.abs, n.ups, []) by {
      if n.abs { assert head[..0] == []; } else { WalkUps(n.ups); }
    }
    WalkConcat(START, head, n.names);
    WalkConcat(START, head + n.names, tail);
    WalkNames(Dir(n.abs, n.ups, []), n.names);
    assert [] + n.names == n.names;
    if n.slash { assert tail[..0] == []; }
  }

  /** An absolute path has no parents above its start. */
  lemma {:induction false} AbsoluteStays(es: seq<string>)
    requires PathElements(es) && es != [] && es[0] == [SEP]
    ensures Resolve(es).abs && Resolve(es).ups == 0
    decreases |es|
  {
    if |es| > 1 {
      var init := es[..|es| - 1];
      assert init[0] == es[0];
      AbsoluteStays(init);
    } else {
      assert es[..0] == [];
    }
  }

  /** The walk along the path ends at or below its start. */
  predicate StaysDown(p: string) {
    IsAbsolute(p) || Resolve(Elements(p)).ups == 0
  }

  /** `lexically_normal` keeps the directory of a plain path exactly when the path does not stumble;
      absolute paths, and relative ones that end at or below their start, never do. */
  lemma NormalKeepsDirectory(p: string)
    requires PlainText(p)
    ensures Resolve(Elements(LexicallyNormal(p))) == Resolve(Elements(p)) <==> !Stumbles(Elements(p))
    ensures StaysDown(p) ==> !Stumbles(Elements(p))
  {
    hide Stumbles, LexicallyNormal, Elements;
    if StaysDown(p) { StaysDownNoStumble(p); }
    var a := Parse(p);
    RenderOfParse(p);
    ElementsOfRender(a);
    NormalOfRender(a);
    var n := Run(a.Elements());
    ElementsOfRender(Result(n));
    ResolveResult(n);
    PlainElements(a);
    RunFollowsWalk(a.Elements());
  }

  lemma StaysDownNoStumble(p: string)
    requires PlainText(p) && StaysDown(p)
    ensures PathElements(Elements(p)) && !Stumbles(Elements(p)) && Resolve(Elements(p)).ups == 0
  {
    hide Stumbles, Elements, PathElements, Resolve;
    var a := Parse(p);
    RenderOfParse(p);
    RenderIsPlain(a);
    ElementsOfRender(a);
    PlainElements(a);
    NoClimbNoStumble(a.Elements());
  }

  /** A path that is absolute or ends its walk without a parent above its start cannot stumble. */
  lemma NoClimbNoStumble(es: seq<string>)
    requires PathElements(es)
    requires Resolve(es).ups == 0 || (es != [] && es[0] == [SEP])
    ensures !Stumbles(es) && Resolve(es).ups == 0
  {
    hide Stumbles, Resolve;
    if es != [] && es[0] == [SEP] { AbsoluteStays(es); }
    NoUpsNoStumble(es);
  }

  lemma {:induction false} NoUpsNoStumble(es: seq<string>)
    requires PathElements(es) && Resolve(es).ups == 0
    ensures !Stumbles(es)
    decreases |es|
  {
    if es != [] {
      var init := es[..|es| - 1];
      StumblesLast(es);
      if Resolve(init).ups == 0 {
        NoUpsNoStumble(init);
      }
    }
  }

  // ------------------------------------------------------------------ what the result looks like

  /** No `.` unless it is all there is, and `..` only at the start of a relative path. */
  predicate NormalForm(es: seq<string>) {
    || es == ["."]
    || forall i :: 0 <= i < |es| ==>
         es[i] != "." && (es[i] == ".." ==> forall j :: 0 <= j < i ==> es[j] == "..")
  }

  lemma ResultIsNormalForm(n: Norm)
    requires n.Valid()
    ensures NormalForm(Result(n).Elements())
    ensures n.ups == 0 ==> ".." !in Result(n).Elements()
  {
    if n.ToPlain() != EMPTY {
      var head := if n.abs then [[SEP]] else Ups(n.ups);
      var tail := n.names + (if n.slash then [""] else []);
      assert Result(n).Elements() == head + tail;
      TailNames(n, tail);
      hide Norm.Valid, IsName, NormalForm, Plain.Elements, Result;
      HeadAndTail(head, tail, if n.abs then [SEP] else "..");
    }
  }

  lemma TailNames(n: Norm, tail: seq<string>)
    requires n.Valid() && tail == n.names + (if n.slash then [""] else [])
    ensures forall t <- tail :: t != "." && t != ".."
  {
    forall t | t in tail ensures t != "." && t != ".." {
      assert t in n.names || t == "";
    }
  }

  lemma HeadAndTail(head: seq<string>, tail: seq<string>, e: string)
    requires e != "." && (forall h <- head :: h == e) && (forall t <- tail :: t != "." && t != "..")
    ensures NormalForm(head + tail)
    ensures e != ".." || head == [] ==> ".." !in head + tail
  {
    var es := head + tail;
    forall i | 0 <= i < |es| ensures if i < |head| then es[i] == e else es[i] != "." && es[i] != ".." {
      if i < |head| { assert head[i] in head; } else { assert tail[i - |head|] in tail; }
    }
  }

  /** The result is in normal form, and without any `..` when the path does not climb above its start. */
  lemma NormalIsNormalForm(p: string)
    requires PlainText(p)
    ensures PlainText(LexicallyNormal(p)) && IsAbsolute(LexicallyNormal(p)) == IsAbsolute(p)
    ensures NormalForm(Elements(LexicallyNormal(p)))
    ensures StaysDown(p) ==> ".." !in Elements(LexicallyNormal(p))
  {
    hide Stumbles, LexicallyNormal, Elements, NormalForm;
    if StaysDown(p) { StaysDownNoStumble(p); }
    var a := Parse(p);
    RenderOfParse(p);
    ElementsOfRender(a);
    NormalOfRender(a);
    var n := Run(a.Elements());
    RenderIsPlain(a);
    RenderIsPlain(Result(n));
    ElementsOfRender(Result(n));
    ResultIsNormalForm(n);
    PlainElements(a);
    RunFollowsWalk(a.Elements());
  }

  lemma {:induction false} RunSlash(es: seq<string>)
    requires PathElements(es)
    ensures Run(es).names != [] ==> !Run(es).lastDotDot
    ensures Run(es).names != [] ==> es != [] && (Run(es).slash <==> es[|es| - 1] in ["", ".", ".."])
    decreases |es|
  {
    if es != [] { RunSlash(es[..|es| - 1]); }
  }

  /** When a name is left, the result ends in a separator exactly when the path ended in one, in `.` or in `..`. */
  lemma NormalTrailingSeparator(p: string)
    requires PlainText(p) && Resolve(Elements(p)).names != []
    ensures Elements(p) != []
    ensures EndsWithSep(LexicallyNormal(p)) <==> Elements(p)[|Elements(p)| - 1] in ["", ".", ".."]
  {
    hide Stumbles, LexicallyNormal, Elements, Join;
    var a := Parse(p);
    RenderOfParse(p);
    ElementsOfRender(a);
    NormalOfRender(a);
    PlainElements(a);
    RunFollowsWalk(a.Elements());
    RunSlash(a.Elements());
    var n := Run(a.Elements());
    assert n.ToPlain() != EMPTY by { assert |n.ToPlain().comps| >= |n.names|; }
    RenderIsPlain(n.ToPlain());
  }

  /** A path that stumbles: two parents above its start, but its normal form is the start. */
  lemma StumbleExample()
    ensures PlainText("../a/../..")
    ensures LexicallyNormal("../a/../..") == "."
    ensures Resolve(Elements("../a/../..")) == Dir(false, 2, [])
    ensures Resolve(Elements(LexicallyNormal("../a/../.."))) == START
  {
    var cs := ["..", "a", "..", ".."];
    var a := Plain(false, cs, false);
    ExampleText(cs);
    hide Join, LexicallyNormal, Elements, Run, WalkAll, PlainText;
    assert Render(a) == "../a/../..";
    RenderIsPlain(a);
    ExampleWalk(cs);
    assert a.Elements() == cs;
    NormalOfRender(a);
    ElementsOfRender(a);
    ResultOfNothing();
    hide Render, Result;
    ResolveResult(NOTHING);
    ElementsOfRender(Result(NOTHING));
  }

  lemma ResultOfNothing()
    ensures Result(NOTHING).Valid() && Render(Result(NOTHING)) == "."
  {
  }

  lemma ExampleWalk(cs: seq<string>)
    requires cs == ["..", "a", "..", ".."]
    ensures Run(cs) == NOTHING
    ensures Resolve(cs) == Dir(false, 2, [])
  {
    assert cs[..3] == ["..", "a", ".."] && cs[..3][..2] == ["..", "a"] && cs[..3][..2][..1] == [".."];
    ExampleStart();
    assert Run(["..", "a", ".."]) == Norm(false, 1, [], true, false);
    assert WalkAll(START, ["..", "a", ".."]) == Dir(false, 1, []);
  }

  lemma ExampleStart()
    ensures Run(["..", "a"]) == Norm(false, 1, ["a"], false, false)
    ensures WalkAll(START, ["..", "a"]) == Dir(false, 1, ["a"])
  {
  }

  lemma ExampleText(cs: seq<string>)
    requires cs == ["..", "a", "..", ".."]
    ensures Join(cs) == "../a/../.."
  {
    JoinConcat(["..", "a"], ["..", ".."]);
    assert ["..", "a"] + ["..", ".."] == cs;
    JoinConcat([".."], ["a"]);
    assert [".."] + ["a"] == ["..", "a"];
    JoinConcat([".."], [".."]);
    assert [".."] + [".."] == ["..", ".."];
  }
}
