/** The bidirectional iterator: `++` and `--` undo each other, and the elements rebuild the path. */
module PathIterate {
  import opened PathText
  import opened PathPlain
  import opened PathAppend

  /** The positions the iterator can stand on: both ends, the names, a trailing separator. */
  predicate ElementStart(s: string, i: nat) {
    && i <= |s|
    && (i == 0 || i == |s| || (s[i - 1] == SEP && s[i] != SEP) || (i + 1 == |s| && s[i] == SEP))
  }

  /** The name that ends at `end`. */
  lemma NameBefore(s: string, end: nat) returns (pos: nat, c: string)
    requires PlainText(s) && 0 < end <= |s| && s[end - 1] != SEP && (end == |s| || s[end] == SEP)
    ensures NameAt(s, pos, c) && pos + |c| == end && ElementStart(s, pos)
  {
    pos := FindBack(s, SEP, end);
    c := s[pos..end];
  }

  /** `++` keeps to these positions and `--` takes it back. */
  lemma NextThenPrevious(s: string, i: nat)
    requires PlainText(s) && ElementStart(s, i) && i < |s|
    ensures ElementStart(s, Next(s, i)) && Decrement(s, Next(s, i)) == i
  {
    hide Next, Decrement, PlainText;
    if s[i] != SEP {
      OverName(s, i);
    } else if i == 0 {
      OverRoot(s);
    } else {
      OverTrailingSeparator(s);
    }
  }

  lemma OverName(s: string, i: nat)
    requires PlainText(s) && ElementStart(s, i) && i < |s| && s[i] != SEP
    ensures ElementStart(s, Next(s, i)) && Decrement(s, Next(s, i)) == i
  {
    hide Next, Current, Decrement;
    var c := s[i..Find(s, SEP, i)];
    NameFrom(s, i, c);
    var end := i + |c|;
    if end + 1 < |s| { NoDouble(s, end + 1); }
    DecrementOverName(s, i, c, Follow(s, end));
  }

  lemma OverRoot(s: string)
    requires PlainText(s) && s != "" && s[0] == SEP
    ensures ElementStart(s, Next(s, 0)) && Decrement(s, Next(s, 0)) == 0
  {
    hide Next;
    RootOfPlain(s);
    IterateAtRoot(s);
    if |s| > 1 { NoDouble(s, 1); }
  }

  lemma OverTrailingSeparator(s: string)
    requires PlainText(s) && |s| > 1 && s[|s| - 1] == SEP
    ensures Next(s, |s| - 1) == |s| && Decrement(s, |s|) == |s| - 1
  {
    hide Next;
    IterateAtTrailingSeparator(s);
  }

  /** `--` keeps to these positions and `++` takes it back. */
  lemma PreviousThenNext(s: string, i: nat)
    requires PlainText(s) && ElementStart(s, i) && i > 0
    ensures ElementStart(s, Decrement(s, i)) && Next(s, Decrement(s, i)) == i
  {
    hide Next, Current, Increment;
    RootOfPlain(s);
    if s[i - 1] == SEP && (i == 1 || i == |s|) {
      if i == 1 { IterateAtRoot(s); } else { IterateAtTrailingSeparator(s); }
    } else {
      var end := if s[i - 1] == SEP then i - 1 else i;
      if end < i { assert s[end] == SEP; }
      var pos, c := NameBefore(s, end);
      DecrementOverName(s, pos, c, i);
      IterateAtName(s, pos, c);
    }
  }

  lemma {:induction false} AppendNames(b: Plain, cs: seq<string>, slash: bool)
    requires b.Valid() && !b.slash && (forall c <- cs :: IsName(c)) && (slash ==> b.comps + cs != [])
    ensures AppendAll(Render(b), cs + (if slash then [""] else [])) == Render(Plain(b.abs, b.comps + cs, slash))
    decreases |cs|
  {
    hide AppendPath, Join;
    if cs == [] {
      assert b.comps + cs == b.comps;
      AppendOfRender(b, EMPTY);
      JoinOne("");
      assert Render(EMPTY) == "";
      assert AppendAll(Render(b), [""]) == AppendPath(Render(b), "") by {
        assert AppendAll(AppendPath(Render(b), ""), []) == AppendPath(Render(b), "");
      }
    } else {
      var c := cs[0];
      var b' := Plain(b.abs, b.comps + [c], false);
      AppendName(b, c);
      AppendNames(b', cs[1..], slash);
      assert b.comps + cs == b'.comps + cs[1..];
      assert (cs + (if slash then [""] else []))[1..] == cs[1..] + (if slash then [""] else []);
    }
  }

  lemma AppendName(b: Plain, c: string)
    requires b.Valid() && IsName(c)
    ensures AppendPath(Render(b), c) == Render(Plain(b.abs, b.comps + [c], false))
  {
    hide AppendPath, Join;
    var n := Plain(false, [c], false);
    JoinOne(c);
    assert Render(n) == c;
    AppendOfRender(b, n);
  }

  /** Appending its elements one after the other to the empty path rebuilds the exact string. */
  lemma RebuildFromElements(p: string)
    requires PlainText(p)
    ensures AppendAll("", Elements(p)) == p
  {
    hide AppendPath, Join, Elements, PlainText;
    var a := Parse(p);
    RenderOfParse(p);
    ElementsOfRender(a);
    RenderOfRoot(a.abs);
    var start, rest := Plain(a.abs, [], false), a.comps + (if a.slash then [""] else []);
    assert [] + a.comps == a.comps;
    AppendNames(start, a.comps, a.slash);
    if a.abs {
      AppendRootFirst(rest);
      assert a.Elements() == [[SEP]] + rest;
    } else {
      assert a.Elements() == rest;
    }
  }

  lemma RenderOfRoot(abs: bool)
    ensures Render(Plain(abs, [], false)) == if abs then [SEP] else ""
  {
  }

  lemma AppendRootFirst(rest: seq<string>)
    ensures AppendAll("", [[SEP]] + rest) == AppendAll([SEP], rest)
  {
    hide AppendPath;
    AppendPlain("", [SEP]);
    RootOfPlain([SEP]);
    assert ([[SEP]] + rest)[1..] == rest;
  }
}
