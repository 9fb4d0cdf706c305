/** Which name `values` keeps for a value: the first of the shortest, in the order they are settled. */
module EnumNames {
  import opened SeqFacts
  import opened EnumAlias

  /** Names that get the value `v` one after the other: a strictly shorter one replaces the one kept. */
  function Keep(values: map<int, Name>, names: seq<Name>, v: int): map<int, Name> {
    if names == [] then values
    else
      var kept, n := Keep(values, names[..|names| - 1], v), names[|names| - 1];
      if v !in kept || |kept[v]| > |n| then kept[v := n] else kept
  }

  /** The order in which names are settled: each one, then what waits for it, in the order it was listed. */
  ghost function Trace(pending: map<Name, seq<Name>>, n: Name, rank: Name -> nat, top: nat): seq<Name>
    requires Ranked(pending, rank, top) && rank(n) <= top
    decreases top - rank(n), 1, 0
  {
    [n] + if n in pending then TraceAll(pending, pending[n], rank, top, rank(n)) else []
  }

  ghost function TraceAll(pending: map<Name, seq<Name>>, names: seq<Name>, rank: Name -> nat, top: nat,
                          above: nat): seq<Name>
    requires Ranked(pending, rank, top) && above <= top && forall n <- names :: above < rank(n) <= top
    decreases top - above, 0, |names|
  {
    if names == [] then []
    else
      assert names[|names| - 1] in names;
      TraceAll(pending, names[..|names| - 1], rank, top, above) + Trace(pending, names[|names| - 1], rank, top)
  }

  // ------------------------------------------------------------------ the first of the shortest

  /** `n` is the first of the shortest names. */
  predicate FirstShortest(names: seq<Name>, n: Name) {
    exists i :: 0 <= i < |names| && names[i] == n
                && (forall j :: 0 <= j < i ==> |names[j]| > |n|)
                && (forall j :: i <= j < |names| ==> |names[j]| >= |n|)
  }

  function KeptBefore(values: map<int, Name>, v: int): seq<Name> {
    if v in values then [values[v]] else []
  }

  /** Other values keep their names. */
  lemma {:induction false} KeepOthers(values: map<int, Name>, names: seq<Name>, v: int)
    ensures Keep(values, names, v).Keys == values.Keys + (if names == [] then {} else {v})
    ensures forall w <- values :: w != v ==> Keep(values, names, v)[w] == values[w]
    decreases |names|
  {
    if names != [] { KeepOthers(values, names[..|names| - 1], v); }
  }

  /** Of the name kept before and the names settled now, the first of the shortest is kept. */
  lemma {:induction false} KeepIsFirstShortest(values: map<int, Name>, names: seq<Name>, v: int)
    requires KeptBefore(values, v) + names != []
    ensures v in Keep(values, names, v)
    ensures FirstShortest(KeptBefore(values, v) + names, Keep(values, names, v)[v])
    decreases |names|
  {
    hide FirstShortest, Keep;
    if names == [] {
      KeepNone(values, v);
      OnlyName(values[v]);
      assert KeptBefore(values, v) + names == [values[v]];
    } else {
      var init, n := names[..|names| - 1], names[|names| - 1];
      KeepLast(values, names, v);
      Last(names);
      if KeptBefore(values, v) + init == [] {
        NothingKept(values, init, n, v);
      } else {
        KeepIsFirstShortest(values, init, v);
        hide KeptBefore;
        JoinAssociates(KeptBefore(values, v), init, [n]);
        OneMoreName(KeptBefore(values, v) + init, Keep(values, init, v)[v], n);
      }
    }
  }

  lemma KeepNone(values: map<int, Name>, v: int)
    ensures Keep(values, [], v) == values
  {
  }

  lemma KeepLast(values: map<int, Name>, names: seq<Name>, v: int)
    requires names != []
    ensures var kept, n := Keep(values, names[..|names| - 1], v), names[|names| - 1];
            Keep(values, names, v) == if v !in kept || |kept[v]| > |n| then kept[v := n] else kept
  {
  }

  /** The first name of a value. */
  lemma NothingKept(values: map<int, Name>, init: seq<Name>, n: Name, v: int)
    requires KeptBefore(values, v) + init == []
    ensures v !in Keep(values, init, v) && FirstShortest(KeptBefore(values, v) + (init + [n]), n)
  {
    assert |KeptBefore(values, v)| == 0 && |init| == 0;
    assert KeptBefore(values, v) + (init + [n]) == [n];
    KeepNone(values, v);
    OnlyName(n);
  }

  lemma OnlyName(n: Name)
    ensures FirstShortest([n], n)
  {
    assert [n][0] == n;
  }

  lemma OneMoreName(names: seq<Name>, kept: Name, n: Name)
    requires FirstShortest(names, kept)
    ensures FirstShortest(names + [n], if |kept| > |n| then n else kept)
  {
    var i :| 0 <= i < |names| && names[i] == kept
             && (forall j :: 0 <= j < i ==> |names[j]| > |kept|)
             && (forall j :: i <= j < |names| ==> |names[j]| >= |kept|);
    var k := if |kept| > |n| then |names| else i;
    assert (names + [n])[k] == if |kept| > |n| then n else kept;
  }

  // ------------------------------------------------------------------ names that change nothing any more

  /** None of the names is shorter than the one kept. */
  predicate Covered(values: map<int, Name>, names: set<Name>, v: int) {
    forall n <- names :: v in values && |values[v]| <= |n|
  }

  lemma {:induction false} KeepInParts(values: map<int, Name>, a: seq<Name>, b: seq<Name>, v: int)
    ensures Keep(values, a + b, v) == Keep(Keep(values, a, v), b, v)
    decreases |b|
  {
    if b == [] {
      assert a + b == a;
    } else {
      KeepInParts(values, a, b[..|b| - 1], v);
      assert (a + b)[..|a + b| - 1] == a + b[..|b| - 1];
    }
  }

  lemma {:induction false} KeepCovered(values: map<int, Name>, names: seq<Name>, g: set<Name>, v: int)
    requires Covered(values, g, v) && forall n <- names :: n in g
    ensures Keep(values, names, v) == values
    decreases |names|
  {
    if names != [] {
      Last(names);
      KeepCovered(values, names[..|names| - 1], g, v);
    }
  }

  /** What is covered stays so, and every name that has been settled is covered. */
  lemma {:induction false} KeepCovers(values: map<int, Name>, names: seq<Name>, g: set<Name>, v: int)
    requires Covered(values, g, v)
    ensures Covered(Keep(values, names, v), g, v)
    ensures forall n <- names :: v in Keep(values, names, v) && |Keep(values, names, v)[v]| <= |n|
    decreases |names|
  {
    if names != [] {
      Last(names);
      KeepCovers(values, names[..|names| - 1], g, v);
    }
  }

  lemma {:induction false} TraceInClosed(pending: map<Name, seq<Name>>, g: set<Name>, n: Name, rank: Name -> nat, top: nat)
    requires Ranked(pending, rank, top) && rank(n) <= top && Closed(pending, g) && n in g
    ensures forall m <- Trace(pending, n, rank, top) :: m in g
    decreases top - rank(n), 1, 0
  {
    if n in pending { TraceAllInClosed(pending, g, pending[n], rank, top, rank(n)); }
  }

  lemma {:induction false} TraceAllInClosed(pending: map<Name, seq<Name>>, g: set<Name>, names: seq<Name>,
                                            rank: Name -> nat, top: nat, above: nat)
    requires Ranked(pending, rank, top) && above <= top && forall n <- names :: above < rank(n) <= top && n in g
    requires Closed(pending, g)
    ensures forall m <- TraceAll(pending, names, rank, top, above) :: m in g
    decreases top - above, 0, |names|
  {
    if names != [] {
      Last(names);
      TraceAllInClosed(pending, g, names[..|names| - 1], rank, top, above);
      TraceInClosed(pending, g, names[|names| - 1], rank, top);
    }
  }

  /** Whatever waits is in the trace. */
  lemma {:induction false} WaitingIsTraced(pending: map<Name, seq<Name>>, n: Name, rank: Name -> nat, top: nat)
    requires Ranked(pending, rank, top) && rank(n) <= top
    ensures forall m <- Waiting(pending, n, rank, top) :: m in Trace(pending, n, rank, top)
    decreases top - rank(n), 1, 0
  {
    if n in pending { WaitingAllIsTraced(pending, pending[n], rank, top, rank(n)); }
  }

  lemma {:induction false} WaitingAllIsTraced(pending: map<Name, seq<Name>>, names: seq<Name>,
                                              rank: Name -> nat, top: nat, above: nat)
    requires Ranked(pending, rank, top) && above <= top && forall n <- names :: above < rank(n) <= top
    ensures forall m <- WaitingAll(pending, names, rank, top, above) :: m in TraceAll(pending, names, rank, top, above)
    decreases top - above, 0, |names|
  {
    if names != [] {
      Last(names);
      WaitingAllIsTraced(pending, names[..|names| - 1], rank, top, above);
      WaitingIsTraced(pending, names[|names| - 1], rank, top);
    }
  }

  /** Lists that are gone already would not have changed anything. */
  lemma {:induction false} TraceWithout(pending: map<Name, seq<Name>>, gone: set<Name>, n: Name, values: map<int, Name>,
                                        v: int, rank: Name -> nat, top: nat)
    requires Ranked(pending, rank, top) && rank(n) <= top && Closed(pending, gone) && Covered(values, gone, v)
    ensures Keep(values, Trace(pending - gone, n, rank, top), v) == Keep(values, Trace(pending, n, rank, top), v)
    decreases top - rank(n), 1, 0
  {
    hide Keep, Closed, Covered;
    if n in gone {
      TraceInClosed(pending, gone, n, rank, top);
      KeepCovered(values, Trace(pending, n, rank, top), gone, v);
      assert Trace(pending - gone, n, rank, top) == [n];
      KeepCovered(values, [n], gone, v);
    } else if n in pending {
      KeepCovers(values, [n], gone, v);
      TraceAllWithout(pending, gone, pending[n], Keep(values, [n], v), v, rank, top, rank(n));
      KeepInParts(values, [n], TraceAll(pending, pending[n], rank, top, rank(n)), v);
      KeepInParts(values, [n], TraceAll(pending - gone, pending[n], rank, top, rank(n)), v);
    }
  }

  lemma {:induction false} TraceAllWithout(pending: map<Name, seq<Name>>, gone: set<Name>, names: seq<Name>, values: map<int, Name>,
                                           v: int, rank: Name -> nat, top: nat, above: nat)
    requires Ranked(pending, rank, top) && above <= top && forall n <- names :: above < rank(n) <= top
    requires Closed(pending, gone) && Covered(values, gone, v)
    ensures Keep(values, TraceAll(pending - gone, names, rank, top, above), v)
            == Keep(values, TraceAll(pending, names, rank, top, above), v)
    decreases top - above, 0, |names|
  {
    hide Keep, Closed, Covered;
    if names != [] {
      var init, last := names[..|names| - 1], names[|names| - 1];
      Last(names);
      TraceAllWithout(pending, gone, init, values, v, rank, top, above);
      var first := TraceAll(pending, init, rank, top, above);
      var kept := Keep(values, first, v);
      KeepCovers(values, first, gone, v);
      TraceWithout(pending, gone, last, kept, v, rank, top);
      KeepInParts(values, first, Trace(pending, last, rank, top), v);
      KeepInParts(values, TraceAll(pending - gone, init, rank, top, above), Trace(pending - gone, last, rank, top), v);
    }
  }

  // ------------------------------------------------------------------ what settling leaves in `values`

  lemma KeepOne(st: State, n: Name, v: int)
    ensures Record(st, n, v).values == Keep(st.values, [n], v)
  {
    assert [n][..0] == [];
  }

  /** Settling a name keeps, for its value, the first of the shortest names along the trace. */
  lemma {:induction false} SettleValues(st: State, n: Name, v: int, rank: Name -> nat, top: nat)
    requires Ranked(st.pending, rank, top) && rank(n) <= top
    ensures Settle(st, n, v, rank, top).values == Keep(st.values, Trace(st.pending, n, rank, top), v)
    decreases top - rank(n), 1, 0
  {
    hide Keep;
    KeepOne(st, n, v);
    if n in st.pending {
      var rest := TraceAll(st.pending, st.pending[n], rank, top, rank(n));
      SettleAllValues(Record(st, n, v), st.pending[n], v, rank, top, rank(n));
      KeepInParts(st.values, [n], rest, v);
    } else {
      assert [n] + [] == [n];
    }
  }

  lemma {:induction false} SettleAllValues(st: State, names: seq<Name>, v: int, rank: Name -> nat, top: nat, above: nat)
    requires Ranked(st.pending, rank, top) && above <= top && forall n <- names :: above < rank(n) <= top
    ensures SettleAll(st, names, v, rank, top, above).values
            == Keep(st.values, TraceAll(st.pending, names, rank, top, above), v)
    decreases top - above, 0, |names|
  {
    if names != [] {
      hide Keep, Covered, Settle;
      var init, last := names[..|names| - 1], names[|names| - 1];
      Last(names);
      SettleAllValues(st, init, v, rank, top, above);
      var mid := SettleAll(st, init, v, rank, top, above);
      var w := WaitingAll(st.pending, init, rank, top, above);
      var first := TraceAll(st.pending, init, rank, top, above);
      SettleAllEffect(st, init, v, rank, top, above);
      WaitingAllIsClosed(st.pending, init, rank, top, above);
      WaitingAllIsTraced(st.pending, init, rank, top, above);
      SettledIsCovered(st.values, first, w, v);
      SettleValues(mid, last, v, rank, top);
      TraceWithout(st.pending, w, last, mid.values, v, rank, top);
      KeepInParts(st.values, first, Trace(st.pending, last, rank, top), v);
    }
  }

  /** When a name and all that waits for it are settled, `values` keeps for the value the first of the
      shortest of the name kept before and these names; other values keep their names. */
  lemma SettledNames(st: State, n: Name, v: int, rank: Name -> nat, top: nat)
    requires Ranked(st.pending, rank, top) && rank(n) <= top
    ensures var values, names := Settle(st, n, v, rank, top).values, Trace(st.pending, n, rank, top);
            && values.Keys == st.values.Keys + {v}
            && (forall w <- st.values :: w != v ==> values[w] == st.values[w])
            && FirstShortest((if v in st.values then [st.values[v]] else []) + names, values[v])
  {
    hide Keep, FirstShortest, Settle, TraceAll;
    SettleValues(st, n, v, rank, top);
    var names := Trace(st.pending, n, rank, top);
    assert names[0] == n;
    KeepOthers(st.values, names, v);
    KeepIsFirstShortest(st.values, names, v);
  }

  lemma SettledIsCovered(values: map<int, Name>, names: seq<Name>, w: set<Name>, v: int)
    requires forall n <- w :: n in names
    ensures Covered(Keep(values, names, v), w, v)
  {
    hide Keep;
    KeepCovers(values, names, {}, v);
  }
}
