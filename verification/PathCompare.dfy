/** `path::compare`: one pass over the characters, but the order of the element lists. */
module PathCompare {
  import opened PathText
  import opened PathPlain

  /** The order 30.10.8.4.8 asks for: lexicographic, element by element. */
  function CompareElements(es: seq<string>, bs: seq<string>): int {
    if es == [] then if bs == [] then 0 else -1
    else if bs == [] then 1
    else
      var c := CompareStrings(es[0], bs[0]);
      if c != 0 then c else CompareElements(es[1..], bs[1..])
  }

  /** The text cut at every separator; never empty. */
  function Segments(s: string): (r: seq<string>)
    ensures r != []
  {
    if s == "" then [""]
    else if s[0] == SEP then [""] + Segments(s[1..])
    else
      var r := Segments(s[1..]);
      [[s[0]] + r[0]] + r[1..]
  }

  /** Where two strings differ first, or where the shorter one ends. */
  function FirstDifference(a: string, b: string): (k: nat)
    ensures k <= |a| && k <= |b| && a[..k] == b[..k]
    ensures k < |a| && k < |b| ==> a[k] != b[k]
  {
    if a != "" && b != "" && a[0] == b[0] then 1 + FirstDifference(a[1..], b[1..]) else 0
  }

  /** At the first difference neither byte is a separator and exactly one is above 127: there the signed
      comparison of the loop and the unsigned one of the elements disagree. */
  predicate MixedSigns(a: string, b: string) {
    var k := FirstDifference(a, b);
    k < |a| && k < |b| && a[k] != SEP && b[k] != SEP && IsHigh(a[k]) != IsHigh(b[k])
  }

  lemma MixedLater(a: string, b: string)
    requires a != "" && b != "" && a[0] == b[0]
    ensures MixedSigns(a, b) <==> MixedSigns(a[1..], b[1..])
  {
  }

  /** The order of the segments, turned around where the signs are mixed. */
  lemma {:induction false} TailsAreSegments(a: string, b: string)
    ensures CompareTails(a, b)
            == if MixedSigns(a, b) then -CompareElements(Segments(a), Segments(b))
               else CompareElements(Segments(a), Segments(b))
    decreases |a|
  {
    hide MixedSigns;
    if a != "" && b != "" && a[0] == b[0] {
      TailsAreSegments(a[1..], b[1..]);
      MixedLater(a, b);
      var r, q := Segments(a[1..]), Segments(b[1..]);
      if a[0] == SEP {
        assert Segments(a)[1..] == r && Segments(b)[1..] == q;
      } else {
        assert ([a[0]] + r[0])[1..] == r[0] && ([b[0]] + q[0])[1..] == q[0];
        assert CompareStrings([a[0]] + r[0], [b[0]] + q[0]) == CompareStrings(r[0], q[0]);
      }
    } else {
      DifferentStart(a, b);
    }
  }

  lemma DifferentStart(a: string, b: string)
    requires a == "" || b == "" || a[0] != b[0]
    ensures CompareTails(a, b)
            == if MixedSigns(a, b) then -CompareElements(Segments(a), Segments(b))
               else CompareElements(Segments(a), Segments(b))
  {
  }

  lemma StartOfSegments(s: string)
    ensures s == "" ==> Segments(s) == [""]
    ensures s != "" && s[0] == SEP ==> Segments(s)[0] == "" && |Segments(s)| > 1
    ensures s != "" && s[0] != SEP ==> Segments(s)[0] != "" && Segments(s)[0][0] == s[0]
  {
  }

  lemma {:induction false} SegmentsOfName(c: string, tail: string)
    requires SEP !in c && (tail == "" || tail[0] == SEP)
    ensures Segments(c + tail) == [c] + (if tail == "" then [] else Segments(tail[1..]))
    decreases |c|
  {
    if c == "" {
      assert c + tail == tail;
    } else {
      assert (c + tail)[1..] == c[1..] + tail;
      assert c[0] in c && (c + tail)[0] == c[0];
      SegmentsOfName(c[1..], tail);
      assert [c[0]] + c[1..] == c;
    }
  }

  lemma {:induction false} SegmentsOfJoin(cs: seq<string>, slash: bool)
    requires cs != [] && forall c <- cs :: IsName(c)
    ensures Segments(Join(cs) + (if slash then [SEP] else "")) == cs + (if slash then [""] else [])
    decreases |cs|
  {
    var t := if slash then [SEP] else "";
    var tail := if |cs| == 1 then t else [SEP] + (Join(cs[1..]) + t);
    assert Join(cs) + t == cs[0] + tail;
    assert cs[0] in cs;
    SegmentsOfName(cs[0], tail);
    if |cs| > 1 {
      SegmentsOfJoin(cs[1..], slash);
      assert tail[1..] == Join(cs[1..]) + t;
      assert cs == [cs[0]] + cs[1..];
    } else if slash {
      assert tail[1..] == "";
    }
  }

  /** Behind the root, the segments of a plain path are its elements. */
  lemma ElementsAreSegments(p: string)
    requires PlainText(p)
    ensures var root := RootPathLength(p);
            Elements(p) == (if root == 1 then [[SEP]] else []) + (if root == |p| then [] else Segments(p[root..]))
  {
    hide Elements, Segments;
    var a := Parse(p);
    RenderOfParse(p);
    RenderIsPlain(a);
    RootOfPlain(p);
    ElementsOfRender(a);
    RestOfRender(a);
    var root := RootPathLength(p);
    if a.comps != [] {
      SegmentsOfJoin(a.comps, a.slash);
      JoinIsPlain(a.comps);
    } else {
      assert |p| == root;
    }
  }

  /** After the root-directory check, `compare` is the lexicographic order of the element lists if and
      only if the signs are not mixed; then it is the reverse of it. */
  lemma CompareIsElementwise(p: string, q: string)
    requires PlainText(p) && PlainText(q)
    ensures IsAbsolute(p) != IsAbsolute(q) ==> Compare(p, q) == if IsAbsolute(p) then 1 else -1
    ensures IsAbsolute(p) == IsAbsolute(q) ==>
              && (Compare(p, q) == CompareElements(Elements(p), Elements(q)) <==> !MixedSigns(p, q))
              && (MixedSigns(p, q) ==> Compare(p, q) == -CompareElements(Elements(p), Elements(q)))
  {
    hide Elements, Segments, CompareTails, MixedSigns, CompareElements;
    CompareByRoot(p, q);
    if IsAbsolute(p) == IsAbsolute(q) {
      var a, b := p[RootPathLength(p)..], q[RootPathLength(q)..];
      ElementsBehindRoot(p, q);
      MixedBehindRoot(p, q);
      TailsAreSegments(a, b);
      TailsAntisymmetric(a, b);
      if MixedSigns(a, b) { MixedIsDifferent(a, b); }
    }
  }

  lemma MixedIsDifferent(a: string, b: string)
    requires MixedSigns(a, b)
    ensures a != b
  {
  }

  /** The element lists of two paths with the same root compare as the segments behind it. */
  lemma ElementsBehindRoot(p: string, q: string)
    requires PlainText(p) && PlainText(q) && IsAbsolute(p) == IsAbsolute(q)
    ensures CompareElements(Elements(p), Elements(q))
            == CompareElements(Segments(p[RootPathLength(p)..]), Segments(q[RootPathLength(q)..]))
  {
    hide Elements, Segments;
    RootOfPlain(p);
    RootOfPlain(q);
    ElementsAreSegments(p);
    ElementsAreSegments(q);
    var root := RootPathLength(p);
    TailStart(p);
    TailStart(q);
    StartOfSegments(p[root..]);
    StartOfSegments(q[root..]);
    SameRoot(Elements(p), Elements(q), root);
  }

  lemma MixedBehindRoot(p: string, q: string)
    requires PlainText(p) && PlainText(q) && IsAbsolute(p) == IsAbsolute(q)
    ensures MixedSigns(p, q) <==> MixedSigns(p[RootPathLength(p)..], q[RootPathLength(q)..])
  {
    hide MixedSigns;
    RootOfPlain(p);
    RootOfPlain(q);
    if IsAbsolute(p) {
      MixedLater(p, q);
    } else {
      assert p[0..] == p && q[0..] == q;
    }
  }

  /** The byte C3 is above 127: it comes before "a" in `compare`, but behind it as an element. */
  lemma MixedExample()
    ensures PlainText("\U{C3}") && Compare("\U{C3}", "a") == -1
    ensures CompareElements(Elements("\U{C3}"), Elements("a")) == 1
  {
    var p, q := "\U{C3}", "a";
    assert FirstDifference(p, q) == 0;
    CompareByRoot(p, q);
    assert p[0..] == p && q[0..] == q;
    CompareIsElementwise(p, q);
  }

  lemma TailStart(p: string)
    requires PlainText(p)
    ensures var t := p[RootPathLength(p)..]; t == "" || t[0] != SEP
  {
  }

  lemma SameRoot(es: seq<string>, bs: seq<string>, root: nat)
    requires root <= 1 && root <= |es| && root <= |bs| && es[..root] == bs[..root]
    ensures CompareElements(es, bs) == CompareElements(es[root..], bs[root..])
  {
    if root == 1 {
      assert es[0] == es[..root][0] && bs[0] == bs[..root][0];
      EqualStrings(es[0], bs[0]);
    } else {
      assert es[0..] == es && bs[0..] == bs;
    }
  }

  lemma {:induction false} EqualStrings(a: string, b: string)
    ensures CompareStrings(a, b) == 0 <==> a == b
    decreases |a|
  {
    if a != "" && b != "" && a[0] == b[0] {
      EqualStrings(a[1..], b[1..]);
      assert a == [a[0]] + a[1..] && b == [b[0]] + b[1..];
    }
  }

  // ------------------------------------------------------------------ a total order

  lemma {:induction false} TailsAntisymmetric(a: string, b: string)
    ensures CompareTails(a, b) == -CompareTails(b, a)
    ensures CompareTails(a, b) == 0 <==> a == b
    ensures CompareTails(a, b) in {-1, 0, 1}
    decreases |a|
  {
    if a != "" && b != "" && a[0] == b[0] {
      TailsAntisymmetric(a[1..], b[1..]);
      assert a == [a[0]] + a[1..] && b == [b[0]] + b[1..];
    }
  }

  lemma {:induction false} TailsTransitive(a: string, b: string, c: string)
    requires CompareTails(a, b) <= 0 && CompareTails(b, c) <= 0
    ensures CompareTails(a, c) <= 0
    decreases |a|
  {
    if a != "" && b != "" && c != "" && a[0] == b[0] == c[0] {
      TailsTransitive(a[1..], b[1..], c[1..]);
    }
  }

  /** `compare` gives 0 exactly for equal strings, flips sign with its arguments, and is transitive. */
  lemma CompareIsTotalOrder(p: string, q: string, r: string)
    requires PlainText(p) && PlainText(q) && PlainText(r)
    ensures Compare(p, q) in {-1, 0, 1}
    ensures Compare(p, q) == 0 <==> p == q
    ensures Compare(p, q) == -Compare(q, p)
    ensures Compare(p, q) <= 0 && Compare(q, r) <= 0 ==> Compare(p, r) <= 0
  {
    hide CompareTails;
    CompareByRoot(p, q);
    CompareByRoot(q, p);
    CompareByRoot(q, r);
    CompareByRoot(p, r);
    var root := RootPathLength(p);
    if IsAbsolute(p) == IsAbsolute(q) {
      TailsAntisymmetric(p[root..], q[root..]);
      assert p[..root] == q[..root] by { RootOfPlain(p); RootOfPlain(q); }
      assert p == p[..root] + p[root..] && q == q[..root] + q[root..];
      if IsAbsolute(q) == IsAbsolute(r) && Compare(p, q) <= 0 && Compare(q, r) <= 0 {
        TailsTransitive(p[root..], q[root..], r[root..]);
      }
    }
  }

  lemma CompareByRoot(p: string, q: string)
    requires PlainText(p) && PlainText(q)
    ensures RootPathLength(p) == if IsAbsolute(p) then 1 else 0
    ensures Compare(p, q) ==
            if IsAbsolute(p) != IsAbsolute(q) then if IsAbsolute(p) then 1 else -1
            else CompareTails(p[RootPathLength(p)..], q[RootPathLength(q)..])
  {
  }

  /** Path equality of plain paths is equality of the strings. */
  lemma SamePathIsEqual(p: string, q: string)
    requires PlainText(p) && PlainText(q)
    ensures SamePath(p, q) <==> p == q
  {
    CompareIsTotalOrder(p, q, q);
  }
}
