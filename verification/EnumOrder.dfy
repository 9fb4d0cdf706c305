/** When the order of the declarations matters: exactly when some name is given two values. */
module EnumOrder {
  import opened SeqFacts
  import opened EnumAlias
  import opened EnumRuns

  /** The same declarations, each as often, in some order. */
  ghost predicate Reorders(es: seq<Decl>, ds: seq<Decl>) {
    multiset(es) == multiset(ds)
  }

  /** Every order of the declarations ends in the same values. */
  ghost predicate Confluent(ds: seq<Decl>, rank: Name -> nat, top: nat)
    requires Acyclic(ds, rank, top)
  {
    forall es :: Reorders(es, ds) && Acyclic(es, rank, top) ==> Run(es, rank, top).known == Run(ds, rank, top).known
  }

  lemma ReordersSame(es: seq<Decl>, ds: seq<Decl>, rank: Name -> nat, top: nat)
    requires Reorders(es, ds)
    ensures forall d :: d in es <==> d in ds
    ensures Acyclic(ds, rank, top) ==> Acyclic(es, rank, top)
  {
    assert forall d :: d in es <==> d in multiset(es);
    assert forall d :: d in ds <==> d in multiset(ds);
  }

  // ------------------------------------------------------------------ declarations of lower names first

  /** The declarations of the names below rank `r`, or of the others. */
  ghost function Part(ds: seq<Decl>, rank: Name -> nat, r: nat, low: bool): seq<Decl> {
    if ds == [] then []
    else
      var d := ds[|ds| - 1];
      Part(ds[..|ds| - 1], rank, r, low) + if (rank(d.name) < r) == low then [d] else []
  }

  lemma {:induction false} PartHas(ds: seq<Decl>, rank: Name -> nat, r: nat, low: bool)
    ensures forall d :: d in Part(ds, rank, r, low) <==> d in ds && (rank(d.name) < r) == low
    decreases |ds|
  {
    if ds != [] {
      PartHas(ds[..|ds| - 1], rank, r, low);
      assert ds == ds[..|ds| - 1] + [ds[|ds| - 1]];
    }
  }

  lemma {:induction false} PartsReorder(ds: seq<Decl>, rank: Name -> nat, r: nat)
    ensures multiset(Part(ds, rank, r, true)) + multiset(Part(ds, rank, r, false)) == multiset(ds)
    decreases |ds|
  {
    if ds != [] {
      var init, d := ds[..|ds| - 1], ds[|ds| - 1];
      PartsReorder(init, rank, r);
      PartLast(ds, rank, r, true);
      PartLast(ds, rank, r, false);
      hide Part;
      Last(ds);
      OneMore(init, d);
      OneMore(Part(init, rank, r, rank(d.name) < r), d);
    }
  }

  lemma PartLast(ds: seq<Decl>, rank: Name -> nat, r: nat, low: bool)
    requires ds != []
    ensures var part, d := Part(ds[..|ds| - 1], rank, r, low), ds[|ds| - 1];
            Part(ds, rank, r, low) == if (rank(d.name) < r) == low then part + [d] else part
  {
  }

  /** Everything that waits for a name, directly or not, is above it. */
  lemma {:induction false} WaitingIsAbove(pending: map<Name, seq<Name>>, n: Name, rank: Name -> nat, top: nat)
    requires Ranked(pending, rank, top) && rank(n) <= top
    ensures forall m <- Waiting(pending, n, rank, top) :: rank(m) >= rank(n)
    decreases top - rank(n), 1, 0
  {
    if n in pending { WaitingAllIsAbove(pending, pending[n], rank, top, rank(n)); }
  }

  lemma {:induction false} WaitingAllIsAbove(pending: map<Name, seq<Name>>, names: seq<Name>,
                                             rank: Name -> nat, top: nat, above: nat)
    requires Ranked(pending, rank, top) && above <= top && forall n <- names :: above < rank(n) <= top
    ensures forall m <- WaitingAll(pending, names, rank, top, above) :: rank(m) > above
    decreases top - above, 0, |names|
  {
    if names != [] {
      var init, last := names[..|names| - 1], names[|names| - 1];
      assert last in names && forall n <- init :: n in names;
      WaitingAllIsAbove(pending, init, rank, top, above);
      WaitingIsAbove(pending, last, rank, top);
    }
  }

  /** A declaration changes nothing about the names below its own. */
  lemma AddKeepsBelow(st: State, d: Decl, rank: Name -> nat, top: nat, t: Name, v: int)
    requires Ranked(st.pending, rank, top) && rank(d.name) <= top
    requires d.Alias? ==> rank(d.target) < rank(d.name)
    requires rank(t) < rank(d.name) && Knows(st, t, v)
    ensures Knows(Add(st, d, rank, top), t, v)
  {
    hide Settle, Waiting;
    WaitingIsAbove(st.pending, d.name, rank, top);
    if !d.Alias? {
      SettleEffect(st, d.name, DeclValue(d), rank, top);
    } else if d.target in st.known {
      SettleEffect(st, d.name, st.known[d.target], rank, top);
    }
  }

  /** What a run knows of a name stays while names above it are declared. */
  lemma {:induction false} RunKeepsBelow(ds: seq<Decl>, es: seq<Decl>, rank: Name -> nat, top: nat, t: Name, v: int)
    requires Acyclic(ds, rank, top) && Acyclic(ds + es, rank, top)
    requires (forall e <- es :: rank(e.name) > rank(t)) && Knows(Run(ds, rank, top), t, v)
    ensures Knows(Run(ds + es, rank, top), t, v)
    decreases |es|
  {
    hide Add, Knows;
    if es == [] {
      assert ds + es == ds;
    } else {
      var init, last := es[..|es| - 1], es[|es| - 1];
      assert last in es && forall e <- init :: e in es;
      assert ds + es == ds + init + [last];
      RunOfMore(ds + init, last, rank, top);
      RunKeepsBelow(ds, init, rank, top, t, v);
      AddKeepsBelow(Run(ds + init, rank, top), last, rank, top, t, v);
    }
  }

  lemma RunOfMore(ds: seq<Decl>, d: Decl, rank: Name -> nat, top: nat)
    requires Acyclic(ds + [d], rank, top)
    ensures Acyclic(ds, rank, top) && rank(d.name) <= top && (d.Alias? ==> rank(d.target) < rank(d.name))
    ensures Run(ds + [d], rank, top) == Add(Run(ds, rank, top), d, rank, top)
  {
    hide Add;
    var es := ds + [d];
    assert es[..|es| - 1] == ds && es[|es| - 1] == d;
    assert d in es && forall e <- ds :: e in es;
  }

  // ------------------------------------------------------------------ a least name with two meanings

  ghost predicate Ambiguous(ds: seq<Decl>, n: Name, v: int, w: int) {
    v != w && Means(ds, n, v) && Means(ds, n, w)
  }

  /** No name below rank `r` has two meanings. */
  ghost predicate ClearBelow(ds: seq<Decl>, rank: Name -> nat, r: nat) {
    forall n, v, w :: rank(n) < r ==> !Ambiguous(ds, n, v, w)
  }

  lemma {:induction false} LeastAmbiguous(ds: seq<Decl>, rank: Name -> nat, n: Name, v: int, w: int)
    returns (m: Name, x: int, y: int)
    requires Ambiguous(ds, n, v, w)
    ensures Ambiguous(ds, m, x, y) && ClearBelow(ds, rank, rank(m))
    decreases rank(n)
  {
    hide Ambiguous;
    if ClearBelow(ds, rank, rank(n)) {
      m, x, y := n, v, w;
    } else {
      var n', v', w' :| rank(n') < rank(n) && Ambiguous(ds, n', v', w');
      m, x, y := LeastAmbiguous(ds, rank, n', v', w');
    }
  }

  /** The declaration `d` gives its name the value `v`, itself or through its target. */
  ghost predicate Decides(ds: seq<Decl>, d: Decl, v: int) {
    if d.Alias? then Means(ds, d.target, v) else DeclValue(d) == v
  }

  lemma Decider(ds: seq<Decl>, n: Name, v: int) returns (i: nat)
    requires Means(ds, n, v)
    ensures i < |ds| && ds[i].name == n && Decides(ds, ds[i], v)
  {
    var path :| Chain(ds, path, v) && path[0] == n;
    if |path| == 1 {
      var d :| d in ds && Gives(d, n, v);
      i :| 0 <= i < |ds| && ds[i] == d;
    } else {
      i :| 0 <= i < |ds| && ds[i] == Alias(n, path[1]);
    }
  }

  lemma {:induction false} ChainInPart(ds: seq<Decl>, es: seq<Decl>, path: seq<Name>, v: int,
                                       rank: Name -> nat, top: nat, r: nat)
    requires Acyclic(ds, rank, top) && Chain(ds, path, v) && rank(path[0]) < r
    requires forall d <- ds :: rank(d.name) < r ==> d in es
    ensures Chain(es, path, v)
    decreases |path|
  {
    if |path| == 1 {
      var d :| d in ds && Gives(d, path[0], v);
      assert d in es;
    } else {
      assert Alias(path[0], path[1]) in ds;
      ChainInPart(ds, es, path[1..], v, rank, top, r);
    }
  }

  lemma MeaningIsBelow(es: seq<Decl>, n: Name, v: int, rank: Name -> nat, r: nat)
    requires Means(es, n, v) && forall d <- es :: rank(d.name) < r
    ensures rank(n) < r
  {
    var i := Decider(es, n, v);
    assert es[i] in es;
  }

  /** The lower declarations alone are consistent. */
  lemma LowIsConsistent(ds: seq<Decl>, low: seq<Decl>, rank: Name -> nat, r: nat)
    requires ClearBelow(ds, rank, r)
    requires forall d <- low :: d in ds && rank(d.name) < r
    ensures Consistent(low)
  {
    forall n, v, w | Means(low, n, v) && Means(low, n, w) ensures v == w {
      MeaningIsBelow(low, n, v, rank, r);
      MeansGrows(low, ds, n, v);
      MeansGrows(low, ds, n, w);
      assert !Ambiguous(ds, n, v, w);
    }
  }

  // ------------------------------------------------------------------ the last declaration decides

  /** The order in which declaration `i` comes last, after those of lower names and the others. */
  ghost function DeclaredLast(ds: seq<Decl>, i: nat, rank: Name -> nat): seq<Decl>
    requires i < |ds|
  {
    var others, r := ds[..i] + ds[i + 1..], rank(ds[i].name);
    Part(others, rank, r, true) + Part(others, rank, r, false) + [ds[i]]
  }

  lemma LastReorders(ds: seq<Decl>, i: nat, rank: Name -> nat)
    requires i < |ds|
    ensures Reorders(DeclaredLast(ds, i, rank), ds)
  {
    hide Part;
    var others, r := ds[..i] + ds[i + 1..], rank(ds[i].name);
    var low, high := Part(others, rank, r, true), Part(others, rank, r, false);
    PartsReorder(others, rank, r);
    Together(low, high);
    OneMore(low + high, ds[i]);
    TakenOut(ds, i);
  }

  lemma TakenOut(ds: seq<Decl>, i: nat)
    requires i < |ds|
    ensures multiset(ds[..i] + ds[i + 1..]) + multiset{ds[i]} == multiset(ds)
  {
    Together(ds[..i], ds[i + 1..]);
    Together(ds[..i], ds[i..]);
    Together([ds[i]], ds[i + 1..]);
    assert ds[..i] + ds[i..] == ds && [ds[i]] + ds[i + 1..] == ds[i..];
  }

  /** With the lower declarations first, the target of an alias is known when the alias comes last. */
  lemma TargetIsKnown(ds: seq<Decl>, others: seq<Decl>, t: Name, v: int, rank: Name -> nat, top: nat, r: nat)
    requires Acyclic(ds, rank, top) && ClearBelow(ds, rank, r) && rank(t) < r && Means(ds, t, v)
    requires (forall d <- others :: d in ds) && (forall d <- ds :: rank(d.name) < r ==> d in others)
    ensures var low, high := Part(others, rank, r, true), Part(others, rank, r, false);
            Acyclic(low + high, rank, top) && Knows(Run(low + high, rank, top), t, v)
  {
    hide Part, Run, ClearBelow, Consistent, Good, Knows;
    var low, high := Part(others, rank, r, true), Part(others, rank, r, false);
    PartHas(others, rank, r, true);
    PartHas(others, rank, r, false);
    LowIsConsistent(ds, low, rank, r);
    var path :| Chain(ds, path, v) && path[0] == t;
    ChainInPart(ds, low, path, v, rank, top, r);
    RunResult(low, rank, top);
    assert Means(low, t, v);
    hide Means;
    RunKeepsBelow(low, high, rank, top, t, v);
  }

  lemma LastDecides(ds: seq<Decl>, i: nat, v: int, rank: Name -> nat, top: nat)
    requires Acyclic(ds, rank, top) && i < |ds| && Decides(ds, ds[i], v)
    requires ClearBelow(ds, rank, rank(ds[i].name))
    ensures Acyclic(DeclaredLast(ds, i, rank), rank, top) && Knows(Run(DeclaredLast(ds, i, rank), rank, top), ds[i].name, v)
  {
    hide Part, ClearBelow, Reorders, Run, Settle, Waiting, Means;
    var d, others := ds[i], ds[..i] + ds[i + 1..];
    var r := rank(d.name);
    LastReorders(ds, i, rank);
    ReordersSame(DeclaredLast(ds, i, rank), ds, rank, top);
    var start := Part(others, rank, r, true) + Part(others, rank, r, false);
    RunOfMore(start, d, rank, top);
    var st := Run(start, rank, top);
    if d.Alias? {
      forall e | e in ds && rank(e.name) < r ensures e in others {
        var k :| 0 <= k < |ds| && ds[k] == e;
        assert e in ds[..i] || e in ds[i + 1..];
      }
      TargetIsKnown(ds, others, d.target, v, rank, top, r);
    }
    SettleIsKnown(st, d.name, v, rank, top);
  }

  lemma SettleIsKnown(st: State, n: Name, v: int, rank: Name -> nat, top: nat)
    requires Ranked(st.pending, rank, top) && rank(n) <= top
    ensures Knows(Settle(st, n, v, rank, top), n, v)
  {
    hide Settle;
    SettleEffect(st, n, v, rank, top);
  }

  /** Inconsistent declarations have two orders that end differently. */
  lemma InconsistentOrders(ds: seq<Decl>, rank: Name -> nat, top: nat) returns (es: seq<Decl>, fs: seq<Decl>)
    requires Acyclic(ds, rank, top) && !Consistent(ds)
    ensures Reorders(es, ds) && Reorders(fs, ds)
    ensures Acyclic(es, rank, top) && Acyclic(fs, rank, top)
    ensures Run(es, rank, top).known != Run(fs, rank, top).known
  {
    hide Run, DeclaredLast, Means, Reorders, ClearBelow, Acyclic, Decides;
    var n, v, w :| Means(ds, n, v) && Means(ds, n, w) && v != w;
    var m, x, y := LeastAmbiguous(ds, rank, n, v, w);
    var i := Decider(ds, m, x);
    var j := Decider(ds, m, y);
    es, fs := DeclaredLast(ds, i, rank), DeclaredLast(ds, j, rank);
    LastReorders(ds, i, rank);
    LastReorders(ds, j, rank);
    LastDecides(ds, i, x, rank, top);
    LastDecides(ds, j, y, rank, top);
  }

  /** For declarations without alias cycles, all orders end in the same values if and only if no name
      has two meanings. */
  lemma ConfluentExactly(ds: seq<Decl>, rank: Name -> nat, top: nat)
    requires Acyclic(ds, rank, top)
    ensures Confluent(ds, rank, top) <==> Consistent(ds)
  {
    hide Run, Means, Reorders, Consistent, Acyclic;
    if Consistent(ds) {
      forall es | Reorders(es, ds) && Acyclic(es, rank, top)
        ensures Run(es, rank, top).known == Run(ds, rank, top).known
      {
        ReordersSame(es, ds, rank, top);
        OrderDoesNotMatter(ds, es, rank, top);
      }
    } else {
      var es, fs := InconsistentOrders(ds, rank, top);
    }
  }

  /** One name with two values: the last one counts, and `values` keeps a name that has another value now. */
  lemma InconsistentExample(rank: Name -> nat, top: nat)
    requires rank("A") <= top
    ensures var ds, es := [Direct("A", 1), Direct("A", 2)], [Direct("A", 2), Direct("A", 1)];
            && Acyclic(ds, rank, top) && Acyclic(es, rank, top)
            && Run(ds, rank, top).known == map["A" := 2] && Run(es, rank, top).known == map["A" := 1]
            && Run(ds, rank, top).values == map[1 := "A", 2 := "A"]
  {
    TwoValues("A", 1, 2, rank, top);
    TwoValues("A", 2, 1, rank, top);
  }

  lemma TwoValues(n: Name, v: int, w: int, rank: Name -> nat, top: nat)
    requires rank(n) <= top && v != w
    ensures var ds := [Direct(n, v), Direct(n, w)];
            && Acyclic(ds, rank, top)
            && Run(ds, rank, top) == State(map[n := w], map[v := n, w := n], map[])
  {
    hide Run, Settle;
    assert [] + [Direct(n, v)] == [Direct(n, v)] && [Direct(n, v)] + [Direct(n, w)] == [Direct(n, v), Direct(n, w)];
    RunOfMore([], Direct(n, v), rank, top);
    RunOfMore([Direct(n, v)], Direct(n, w), rank, top);
    RunOfNothing(rank, top);
    NothingWaits(INITIAL, n, v, rank, top);
    NothingWaits(Record(INITIAL, n, v), n, w, rank, top);
  }

  lemma RunOfNothing(rank: Name -> nat, top: nat)
    ensures Run([], rank, top) == INITIAL
  {
  }

  lemma NothingWaits(st: State, n: Name, v: int, rank: Name -> nat, top: nat)
    requires st.pending == map[] && rank(n) <= top
    ensures Settle(st, n, v, rank, top) == Record(st, n, v)
  {
  }
}
