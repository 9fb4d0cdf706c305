/** Facts about cutting and joining sequences, for any element type. */
module SeqFacts {

  lemma CutAt<T>(s: seq<T>, k: nat)
    requires k <= |s|
    ensures s == s[..k] + s[k..]
  {
  }

  lemma DropJoined<T>(a: seq<T>, b: seq<T>)
    ensures (a + b)[..|a|] == a && (a + b)[|a|..] == b
    ensures |a| > 0 ==> (a + b)[0] == a[0]
    ensures |a| > 1 ==> (a + b)[1] == a[1]
  {
  }

  lemma DropOfDrop<T>(s: seq<T>, i: nat, k: nat)
    requires i + k <= |s|
    ensures s[i..][k..] == s[i + k..]
    ensures forall j :: 0 <= j < |s| - i ==> s[i..][j] == s[i + j]
  {
  }

  lemma JoinAssociates<T>(a: seq<T>, b: seq<T>, c: seq<T>)
    ensures a + (b + c) == a + b + c
  {
  }

  lemma One<T>(s: seq<T>)
    ensures |s| > 0 ==> s == [s[0]] + s[1..] && s[..1] == [s[0]]
    ensures |s| > 1 ==> s[..2] == [s[0], s[1]]
    ensures |s| == 1 ==> s == [s[0]]
  {
  }

  lemma Longer<T>(s: seq<T>, x: T, k: nat)
    requires k <= |s|
    ensures (s + [x])[..k] == s[..k] && (s + [x])[k..] == s[k..] + [x]
    ensures s[..|s|] == s && (s + [x])[..|s| + 1] == s + [x] && (s + [x])[|s| + 1..] == []
  {
  }

  lemma Last<T>(s: seq<T>)
    requires s != []
    ensures s == s[..|s| - 1] + [s[|s| - 1]] && s[|s| - 1] in s
    ensures forall x <- s[..|s| - 1] :: x in s
  {
  }

  lemma First<T>(s: seq<T>)
    requires s != []
    ensures s == [s[0]] + s[1..] && s[0] in s
    ensures forall x <- s[1..] :: x in s
  {
  }

  lemma TakeOfTake<T>(s: seq<T>, i: nat, j: nat)
    requires i <= j <= |s|
    ensures s[..j][..i] == s[..i]
  {
  }

  lemma OneMore<T>(s: seq<T>, x: T)
    ensures multiset(s + [x]) == multiset(s) + multiset{x}
  {
  }

  lemma Together<T>(a: seq<T>, b: seq<T>)
    ensures multiset(a + b) == multiset(a) + multiset(b)
  {
  }

  lemma TakeMore<T>(s: seq<T>, k: nat)
    requires k < |s|
    ensures s[..k + 1] == [s[0]] + s[1..][..k]
  {
  }

  /** What starts at `pos`, and what comes behind it. */
  lemma CutFront<T>(s: seq<T>, pos: nat, c: seq<T>, x: seq<T>)
    requires pos <= |s| && s[pos..] == c + x
    ensures pos + |c| + |x| == |s| && s[pos..pos + |c|] == c && s[pos + |c|..] == x
  {
    assert s[pos..][..|c|] == c && s[pos..][|c|..] == x;
  }
}
