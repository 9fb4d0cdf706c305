/** Whole runs of `add_value`: what they end in, and that the order does not matter. */
module EnumRuns {
  import opened EnumAlias

  /** The state after the declarations `ds`, in this order. */
  ghost function Run(ds: seq<Decl>, rank: Name -> nat, top: nat): (st: State)
    requires Acyclic(ds, rank, top)
    ensures Ranked(st.pending, rank, top)
  {
    if ds == [] then INITIAL
    else
      assert ds[|ds| - 1] in ds && forall d <- ds[..|ds| - 1] :: d in ds;
      Add(Run(ds[..|ds| - 1], rank, top), ds[|ds| - 1], rank, top)
  }

  // ------------------------------------------------------------------ the invariant

  ghost predicate KnownIsMeant(st: State, ds: seq<Decl>) {
    forall n <- st.known :: Means(ds, n, st.known[n])
  }

  /** Every declaration is either done or, an alias of something unknown, waiting. */
  predicate Handled(st: State, d: Decl) {
    if !d.Alias? then d.name in st.known && st.known[d.name] == DeclValue(d)
    else if d.target in st.known then d.name in st.known && st.known[d.name] == st.known[d.target]
    else d.target in st.pending && d.name in st.pending[d.target]
  }

  ghost predicate PendingIsDeclared(st: State, ds: seq<Decl>) {
    forall t <- st.pending ::
      t !in st.known && st.pending[t] != [] && forall n <- st.pending[t] :: Alias(n, t) in ds
  }

  ghost predicate Good(st: State, ds: seq<Decl>) {
    && KnownIsMeant(st, ds)
    && (forall d <- ds :: Handled(st, d))
    && PendingIsDeclared(st, ds)
    && ValuesOk(st.values, st.known)
  }

  /** Whatever waits for `n`, directly or not, means what `n` means. */
  lemma {:induction false} WaitingMeans(pending: map<Name, seq<Name>>, ds: seq<Decl>, n: Name, v: int,
                                        rank: Name -> nat, top: nat)
    requires Ranked(pending, rank, top) && rank(n) <= top
    requires (forall t <- pending :: forall m <- pending[t] :: Alias(m, t) in ds) && Means(ds, n, v)
    ensures forall m <- Waiting(pending, n, rank, top) :: Means(ds, m, v)
    decreases top - rank(n), 1, 0
  {
    hide Means;
    if n in pending {
      forall m | m in pending[n] ensures Means(ds, m, v) { MeansAlias(ds, m, n, v); }
      WaitingAllMeans(pending, ds, pending[n], v, rank, top, rank(n));
    }
  }

  lemma {:induction false} WaitingAllMeans(pending: map<Name, seq<Name>>, ds: seq<Decl>, names: seq<Name>, v: int,
                                           rank: Name -> nat, top: nat, above: nat)
    requires Ranked(pending, rank, top) && above <= top && forall n <- names :: above < rank(n) <= top
    requires (forall t <- pending :: forall m <- pending[t] :: Alias(m, t) in ds) && forall n <- names :: Means(ds, n, v)
    ensures forall m <- WaitingAll(pending, names, rank, top, above) :: Means(ds, m, v)
    decreases top - above, 0, |names|
  {
    hide Means;
    if names != [] {
      var init, last := names[..|names| - 1], names[|names| - 1];
      assert last in names && forall n <- init :: n in names;
      WaitingAllMeans(pending, ds, init, v, rank, top, above);
      WaitingMeans(pending, ds, last, v, rank, top);
    }
  }

  lemma KnownAfterSettling(st: State, ds: seq<Decl>, es: seq<Decl>, w: set<Name>, v: int)
    requires Good(st, ds) && Consistent(es) && (forall e <- ds :: e in es) && (forall m <- w :: Means(es, m, v))
    ensures Agrees(st.known, w, v)
    ensures KnownIsMeant(State(With(st.known, w, v), st.values, st.pending - w), es)
    ensures PendingIsDeclared(State(With(st.known, w, v), st.values, st.pending - w), es)
  {
    forall m | m in st.known ensures Means(es, m, st.known[m]) {
      MeansGrows(ds, es, m, st.known[m]);
    }
    hide Means, ValuesOk, Handled;
  }

  lemma SettleKeepsGood(st: State, ds: seq<Decl>, d: Decl, v: int, rank: Name -> nat, top: nat)
    requires Good(st, ds) && Ranked(st.pending, rank, top) && rank(d.name) <= top
    requires Consistent(ds + [d])
    requires if d.Alias? then d.target in st.known && v == st.known[d.target] else v == DeclValue(d)
    ensures Good(Settle(st, d.name, v, rank, top), ds + [d])
  {
    hide Means, Consistent, Handled, ValuesOk, Settle, Waiting, Ranked;
    var es := ds + [d];
    assert d in es && forall e <- ds :: e in es;
    NameMeans(st, ds, d, v);
    var w := Waiting(st.pending, d.name, rank, top);
    OwnWaiting(st.pending, d.name, rank, top);
    WaitingMeans(st.pending, es, d.name, v, rank, top);
    WaitingIsClosed(st.pending, d.name, rank, top);
    SettleEffect(st, d.name, v, rank, top);
    KnownAfterSettling(st, ds, es, w, v);
    SettleKeepsValues(st, d.name, v, rank, top);
    AllHandled(st, ds, d, w, v, Settle(st, d.name, v, rank, top));
  }

  /** The name of a declaration that is done means its value. */
  lemma NameMeans(st: State, ds: seq<Decl>, d: Decl, v: int)
    requires KnownIsMeant(st, ds)
    requires if d.Alias? then d.target in st.known && v == st.known[d.target] else v == DeclValue(d)
    ensures Means(ds + [d], d.name, v)
  {
    hide Means;
    var es := ds + [d];
    assert d in es && forall e <- ds :: e in es;
    if d.Alias? {
      MeansGrows(ds, es, d.target, v);
      MeansAlias(es, d.name, d.target, v);
    } else {
      assert Gives(d, d.name, v);
      MeansGiven(es, d.name, v);
    }
  }

  lemma OwnWaiting(pending: map<Name, seq<Name>>, n: Name, rank: Name -> nat, top: nat)
    requires Ranked(pending, rank, top) && rank(n) <= top
    ensures n in Waiting(pending, n, rank, top)
  {
  }

  lemma AllHandled(st: State, ds: seq<Decl>, d: Decl, w: set<Name>, v: int, r: State)
    requires Good(st, ds) && Consistent(ds + [d]) && Closed(st.pending, w) && d.name in w
    requires forall m <- w :: Means(ds + [d], m, v)
    requires Agrees(st.known, w, v)
    requires r.known == With(st.known, w, v) && r.pending == st.pending - w
    requires if d.Alias? then d.target in st.known && v == st.known[d.target] else v == DeclValue(d)
    ensures forall e <- ds + [d] :: Handled(r, e)
  {
  }

  /** `add_value` keeps the invariant. */
  lemma AddKeepsGood(st: State, ds: seq<Decl>, d: Decl, rank: Name -> nat, top: nat)
    requires Good(st, ds) && Ranked(st.pending, rank, top) && Consistent(ds + [d])
    requires rank(d.name) <= top && (d.Alias? ==> rank(d.target) < rank(d.name))
    ensures Good(Add(st, d, rank, top), ds + [d])
  {
    hide Means, Consistent;
    if !d.Alias? {
      SettleKeepsGood(st, ds, d, DeclValue(d), rank, top);
    } else if d.target in st.known {
      SettleKeepsGood(st, ds, d, st.known[d.target], rank, top);
    } else {
      AliasWaits(st, ds, d, rank, top);
    }
  }

  lemma AliasWaits(st: State, ds: seq<Decl>, d: Decl, rank: Name -> nat, top: nat)
    requires Good(st, ds) && Ranked(st.pending, rank, top)
    requires d.Alias? && rank(d.target) < rank(d.name) <= top && d.target !in st.known
    ensures Good(Add(st, d, rank, top), ds + [d])
  {
    var es := ds + [d];
    var r := Add(st, d, rank, top);
    assert d in es && forall e <- ds :: e in es;
    forall n | n in st.known ensures Means(es, n, r.known[n]) {
      MeansGrows(ds, es, n, st.known[n]);
    }
    hide Means, ValuesOk;
    StillHandled(st, ds, d, r.pending);
    hide Handled, KnownIsMeant;
    assert PendingIsDeclared(r, es);
  }

  lemma StillHandled(st: State, ds: seq<Decl>, d: Decl, pending: map<Name, seq<Name>>)
    requires forall e <- ds :: Handled(st, e)
    requires d.Alias? && d.target !in st.known && d.target in pending && d.name in pending[d.target]
    requires forall t <- st.pending :: t in pending && forall n <- st.pending[t] :: n in pending[t]
    ensures forall e <- ds + [d] :: Handled(st.(pending := pending), e)
  {
  }

  lemma ConsistentPrefix(ds: seq<Decl>)
    requires ds != [] && Consistent(ds)
    ensures Consistent(ds[..|ds| - 1])
  {
    var init := ds[..|ds| - 1];
    forall n, v, w | Means(init, n, v) && Means(init, n, w) ensures v == w {
      MeansGrows(init, ds, n, v);
      MeansGrows(init, ds, n, w);
    }
  }

  lemma {:induction false} RunIsGood(ds: seq<Decl>, rank: Name -> nat, top: nat)
    requires Acyclic(ds, rank, top) && Consistent(ds)
    ensures Good(Run(ds, rank, top), ds)
    decreases |ds|
  {
    hide Means, Consistent;
    if ds != [] {
      var init, d := ds[..|ds| - 1], ds[|ds| - 1];
      assert d in ds && forall e <- init :: e in ds;
      assert init + [d] == ds;
      ConsistentPrefix(ds);
      RunIsGood(init, rank, top);
      hide Good;
      AddKeepsGood(Run(init, rank, top), init, d, rank, top);
    }
  }

  // ------------------------------------------------------------------ what a run ends in

  lemma {:induction false} ChainIsKnown(st: State, ds: seq<Decl>, path: seq<Name>, v: int)
    requires Good(st, ds) && Chain(ds, path, v)
    ensures path[0] in st.known && st.known[path[0]] == v
    decreases |path|
  {
    hide KnownIsMeant, PendingIsDeclared, ValuesOk;
    if |path| == 1 {
      var d :| d in ds && Gives(d, path[0], v);
      assert Handled(st, d);
    } else {
      ChainIsKnown(st, ds, path[1..], v);
      assert Handled(st, Alias(path[0], path[1]));
    }
  }

  predicate Knows(st: State, n: Name, v: int) {
    n in st.known && st.known[n] == v
  }

  /** `n` waits in the alias list of `t`. */
  predicate Waits(st: State, n: Name, t: Name) {
    t in st.pending && n in st.pending[t]
  }

  /** A name is known exactly with the value its alias chain ends in; an alias waits exactly when its
      target has no value; `values` has the shortest name of every value and nothing else. */
  lemma RunResult(ds: seq<Decl>, rank: Name -> nat, top: nat)
    requires Acyclic(ds, rank, top) && Consistent(ds)
    ensures var st := Run(ds, rank, top);
            && (forall n, v :: Knows(st, n, v) <==> Means(ds, n, v))
            && (forall n, t :: Waits(st, n, t) <==> (Alias(n, t) in ds && forall v :: !Means(ds, t, v)))
            && (forall t <- st.pending :: st.pending[t] != [])
            && ValuesOk(st.values, st.known)
  {
    hide Run;
    RunIsGood(ds, rank, top);
    var st := Run(ds, rank, top);
    forall n, v | Means(ds, n, v) ensures Knows(st, n, v) {
      var path :| Chain(ds, path, v) && path[0] == n;
      ChainIsKnown(st, ds, path, v);
    }
    assert forall n <- st.known :: Means(ds, n, st.known[n]);
    hide Means;
    forall n, t ensures Waits(st, n, t) <==> (Alias(n, t) in ds && forall v :: !Means(ds, t, v)) {
      if Alias(n, t) in ds {
        assert Handled(st, Alias(n, t));
        if t in st.known { assert Knows(st, t, st.known[t]); }
      }
    }
  }

  /** What each declaration says holds at the end. */
  lemma DeclarationsHold(ds: seq<Decl>, rank: Name -> nat, top: nat)
    requires Acyclic(ds, rank, top) && Consistent(ds)
    ensures var known := Run(ds, rank, top).known;
            && (forall n, v :: Direct(n, v) in ds ==> n in known && known[n] == v)
            && (forall n, e, o, b :: Extension(n, e, o, b) in ds ==>
                  n in known && known[n] == (if b then -1 else 1) * (1000000000 + (e - 1) * 1000 + o))
            && (forall n, t :: Alias(n, t) in ds && t in known ==> n in known && known[n] == known[t])
  {
    hide Run, Means, Consistent;
    RunIsGood(ds, rank, top);
    var st := Run(ds, rank, top);
    assert forall d <- ds :: Handled(st, d);
  }

  // ------------------------------------------------------------------ the order of what waits

  /** The names declared as aliases of `t`, in order. */
  function AliasesOf(ds: seq<Decl>, t: Name): seq<Name> {
    if ds == [] then []
    else
      var d := ds[|ds| - 1];
      AliasesOf(ds[..|ds| - 1], t) + if d.Alias? && d.target == t then [d.name] else []
  }

  function ListOf(pending: map<Name, seq<Name>>, t: Name): seq<Name> {
    if t in pending then pending[t] else []
  }

  /** What waits for a name without a value is all its aliases, in the order they were declared. */
  lemma {:induction false} WaitInOrder(ds: seq<Decl>, rank: Name -> nat, top: nat, t: Name)
    requires Acyclic(ds, rank, top) && t !in Run(ds, rank, top).known
    ensures ListOf(Run(ds, rank, top).pending, t) == AliasesOf(ds, t)
    decreases |ds|
  {
    if ds != [] {
      var init, d := ds[..|ds| - 1], ds[|ds| - 1];
      assert d in ds && forall e <- init :: e in ds;
      assert Run(ds, rank, top) == Add(Run(init, rank, top), d, rank, top);
      AddKeepsList(Run(init, rank, top), d, rank, top, t);
      hide Run;
      WaitInOrder(init, rank, top, t);
    }
  }

  lemma AddKeepsList(st: State, d: Decl, rank: Name -> nat, top: nat, t: Name)
    requires Ranked(st.pending, rank, top) && rank(d.name) <= top
    requires d.Alias? ==> rank(d.target) < rank(d.name)
    requires t !in Add(st, d, rank, top).known
    ensures t !in st.known
    ensures ListOf(Add(st, d, rank, top).pending, t)
            == ListOf(st.pending, t) + if d.Alias? && d.target == t then [d.name] else []
  {
    hide Settle, Waiting;
    if !d.Alias? {
      SettleEffect(st, d.name, DeclValue(d), rank, top);
    } else if d.target in st.known {
      SettleEffect(st, d.name, st.known[d.target], rank, top);
    }
  }

  /** Any two orders of the same declarations end in the same values and leave the same names pending. */
  lemma OrderDoesNotMatter(ds: seq<Decl>, es: seq<Decl>, rank: Name -> nat, top: nat)
    requires (forall d <- ds :: d in es) && (forall d <- es :: d in ds)
    requires Acyclic(ds, rank, top) && Consistent(ds)
    ensures Acyclic(es, rank, top)
    ensures var a, b := Run(ds, rank, top), Run(es, rank, top);
            && a.known == b.known
            && a.pending.Keys == b.pending.Keys
            && (forall t <- a.pending :: forall n :: n in a.pending[t] <==> n in b.pending[t])
            && a.values.Keys == b.values.Keys
            && (forall v <- a.values :: |a.values[v]| == |b.values[v]|)
  {
    SameMeaning(ds, es);
    ConsistentToo(ds, es);
    RunResult(ds, rank, top);
    RunResult(es, rank, top);
    hide Run, Means, Consistent;
    var a, b := Run(ds, rank, top), Run(es, rank, top);
    assert forall n, t :: Waits(a, n, t) <==> Waits(b, n, t);
    SameStates(a, b);
  }

  lemma SameMeaning(ds: seq<Decl>, es: seq<Decl>)
    requires (forall d <- ds :: d in es) && (forall d <- es :: d in ds)
    ensures forall n, v :: Means(ds, n, v) <==> Means(es, n, v)
  {
    forall n, v ensures Means(ds, n, v) <==> Means(es, n, v) {
      if Means(ds, n, v) { MeansGrows(ds, es, n, v); }
      if Means(es, n, v) { MeansGrows(es, ds, n, v); }
    }
  }

  lemma ConsistentToo(ds: seq<Decl>, es: seq<Decl>)
    requires Consistent(ds) && forall n, v :: Means(ds, n, v) <==> Means(es, n, v)
    ensures Consistent(es)
  {
  }

  lemma SameStates(a: State, b: State)
    requires forall n, v :: Knows(a, n, v) <==> Knows(b, n, v)
    requires forall n, t :: Waits(a, n, t) <==> Waits(b, n, t)
    requires (forall t <- a.pending :: a.pending[t] != []) && (forall t <- b.pending :: b.pending[t] != [])
    requires ValuesOk(a.values, a.known) && ValuesOk(b.values, b.known)
    ensures a.known == b.known && a.pending.Keys == b.pending.Keys
    ensures forall t <- a.pending :: forall n :: n in a.pending[t] <==> n in b.pending[t]
    ensures a.values.Keys == b.values.Keys && forall v <- a.values :: |a.values[v]| == |b.values[v]|
  {
    SameKnown(a, b);
    SameKnown(b, a);
    SamePending(a, b);
    SamePending(b, a);
    assert a.known == b.known;
    ShortestNames(a.known, a.values, b.values);
    ShortestNames(a.known, b.values, a.values);
    hide Knows, ValuesOk;
    assert a.values.Keys == b.values.Keys by {
      assert forall v :: v in a.values ==> v in b.values;
      assert forall v :: v in b.values ==> v in a.values;
    }
    forall v | v in a.values ensures |a.values[v]| == |b.values[v]| {
      assert v in b.values;
    }
    forall t, n | t in a.pending ensures n in a.pending[t] <==> n in b.pending[t] {
      assert Waits(a, n, t) <==> Waits(b, n, t);
    }
  }

  lemma ShortestNames(known: map<Name, int>, x: map<int, Name>, y: map<int, Name>)
    requires ValuesOk(x, known) && ValuesOk(y, known)
    ensures forall v <- x :: v in y && |y[v]| <= |x[v]|
  {
  }

  lemma SameKnown(a: State, b: State)
    requires forall n, v :: Knows(a, n, v) <==> Knows(b, n, v)
    ensures forall n <- a.known :: n in b.known && b.known[n] == a.known[n]
  {
    forall n | n in a.known ensures n in b.known && b.known[n] == a.known[n] {
      assert Knows(a, n, a.known[n]);
    }
  }

  lemma SamePending(a: State, b: State)
    requires forall n, t :: Waits(a, n, t) <==> Waits(b, n, t)
    requires forall t <- a.pending :: a.pending[t] != []
    ensures a.pending.Keys <= b.pending.Keys
  {
    forall t | t in a.pending ensures t in b.pending {
      assert Waits(a, a.pending[t][0], t);
    }
  }

  // ------------------------------------------------------------------ all_bits_value

  /** Bit `i` of an integer in two's complement of any width. */
  predicate Bit(x: int, i: nat)
    decreases i
  {
    if i == 0 then x % 2 == 1 else Bit(x / 2, i - 1)
  }

  function Size(x: int): nat {
    if x < 0 then -x else x
  }

  /** Python's `|`. */
  function Or(x: int, y: int): int
    decreases Size(x) + Size(y)
  {
    if x in {0, -1} && y in {0, -1} then if x == -1 || y == -1 then -1 else 0
    else 2 * Or(x / 2, y / 2) + if x % 2 == 1 || y % 2 == 1 then 1 else 0
  }

  lemma {:induction false} BitOfOr(x: int, y: int, i: nat)
    ensures Bit(Or(x, y), i) <==> Bit(x, i) || Bit(y, i)
    decreases i
  {
    OrHalves(x, y);
    if i > 0 { BitOfOr(x / 2, y / 2, i - 1); }
  }

  lemma OrHalves(x: int, y: int)
    ensures Or(x, y) % 2 == 1 <==> x % 2 == 1 || y % 2 == 1
    ensures Or(x, y) / 2 == Or(x / 2, y / 2)
  {
  }

  lemma {:induction false} BitOfZero(i: nat)
    ensures !Bit(0, i)
  {
    if i > 0 { BitOfZero(i - 1); }
  }

  // ------------------------------------------------------------------ the Python class

  /** How settling starts: recording the value, then the names that waited, the last of them last. */
  lemma SettleIs(st: State, n: Name, v: int, rank: Name -> nat, top: nat)
    requires Ranked(st.pending, rank, top) && rank(n) <= top
    ensures Record(st, n, v).pending == st.pending
    ensures n !in st.pending ==> Settle(st, n, v, rank, top) == Record(st, n, v)
    ensures n in st.pending ==>
              && (forall m <- st.pending[n] :: rank(n) < rank(m) <= top)
              && SettleAll(Record(st, n, v), st.pending[n][..0], v, rank, top, rank(n)) == Record(st, n, v)
              && var r := SettleAll(Record(st, n, v), st.pending[n], v, rank, top, rank(n));
                 Settle(st, n, v, rank, top) == r.(pending := r.pending - {n})
  {
  }

  lemma SettleAllNext(st: State, names: seq<Name>, i: nat, v: int, rank: Name -> nat, top: nat, above: nat)
    requires Ranked(st.pending, rank, top) && above <= top && i < |names|
    requires forall n <- names :: above < rank(n) <= top
    ensures names[i] in names && forall n <- names[..i + 1] :: n in names
    ensures forall n <- names[..i] :: n in names
    ensures var mid := SettleAll(st, names[..i], v, rank, top, above);
            && Ranked(mid.pending, rank, top)
            && SettleAll(st, names[..i + 1], v, rank, top, above) == Settle(mid, names[i], v, rank, top)
  {
    assert names[..i + 1][..i] == names[..i];
  }

  class VkEnum {
    var values: map<int, Name>
    var nameToValue: map<Name, int>
    var nameToAliasList: map<Name, seq<Name>>

    ghost function Abs(): State
      reads this
    {
      State(nameToValue, values, nameToAliasList)
    }

    constructor ()
      ensures Abs() == INITIAL
    {
      values, nameToValue, nameToAliasList := map[], map[], map[];
    }

    /** `add_value` of a declaration. */
    method AddValue(d: Decl, ghost rank: Name -> nat, ghost top: nat)
      requires Ranked(nameToAliasList, rank, top)
      requires rank(d.name) <= top && (d.Alias? ==> rank(d.target) < rank(d.name))
      modifies this
      ensures Abs() == Add(old(Abs()), d, rank, top)
    {
      if d.Alias? {
        if d.target !in nameToValue {
          var aliasList := if d.target in nameToAliasList then nameToAliasList[d.target] else [];
          nameToAliasList := nameToAliasList[d.target := aliasList + [d.name]];
          return;
        }
        AddKnownValue(d.name, nameToValue[d.target], rank, top);
      } else {
        AddKnownValue(d.name, DeclValue(d), rank, top);
      }
    }

    /** `add_value` from where the value is known; it calls itself for the names that waited. */
    method AddKnownValue(name: Name, value: int, ghost rank: Name -> nat, ghost top: nat)
      requires Ranked(nameToAliasList, rank, top) && rank(name) <= top
      modifies this
      ensures Abs() == Settle(old(Abs()), name, value, rank, top)
      decreases top - rank(name)
    {
      hide Settle, SettleAll, Ranked;
      SettleIs(Abs(), name, value, rank, top);
      ghost var recorded := Record(Abs(), name, value);
      nameToValue := nameToValue[name := value];
      if value !in values {
        values := values[value := name];
      } else if |values[value]| > |name| {
        values := values[value := name];
      }
      assert Abs() == recorded;
      hide Record;
      if name in nameToAliasList {
        var aliases := nameToAliasList[name];
        for i := 0 to |aliases|
          invariant Ranked(recorded.pending, rank, top) && forall n <- aliases :: rank(name) < rank(n) <= top
          invariant forall n <- aliases[..i] :: n in aliases
          invariant Abs() == SettleAll(recorded, aliases[..i], value, rank, top, rank(name))
        {
          SettleAllNext(recorded, aliases, i, value, rank, top, rank(name));
          AddKnownValue(aliases[i], value, rank, top);
        }
        assert aliases[..|aliases|] == aliases;
        nameToAliasList := nameToAliasList - {name};
      }
    }

    /** A whole XML file. */
    method AddAll(ds: seq<Decl>, ghost rank: Name -> nat, ghost top: nat)
      requires Abs() == INITIAL && Acyclic(ds, rank, top)
      modifies this
      ensures Abs() == Run(ds, rank, top)
      ensures Consistent(ds) ==> forall n, v :: Knows(Abs(), n, v) <==> Means(ds, n, v)
    {
      hide Means, Consistent, Add;
      for i := 0 to |ds|
        invariant forall d <- ds[..i] :: d in ds
        invariant Abs() == Run(ds[..i], rank, top)
      {
        assert ds[i] in ds;
        assert ds[..i + 1][..i] == ds[..i];
        AddValue(ds[i], rank, top);
      }
      assert ds[..|ds|] == ds;
      if Consistent(ds) { RunResult(ds, rank, top); }
    }

    /** `all_bits_value`: the OR over the keys of `values`, in the order the dictionary gives them. */
    method AllBitsValue(keys: seq<int>) returns (bits: int)
      requires forall v :: v in keys <==> v in values
      ensures forall i: nat :: Bit(bits, i) <==> exists v <- values :: Bit(v, i)
    {
      hide Or, Bit;
      bits := 0;
      forall i: nat ensures !Bit(0, i) { BitOfZero(i); }
      for k := 0 to |keys|
        invariant forall i: nat :: Bit(bits, i) <==> exists v <- keys[..k] :: Bit(v, i)
      {
        forall i: nat ensures Bit(Or(bits, keys[k]), i) <==> exists v <- keys[..k + 1] :: Bit(v, i) {
          BitOfOr(bits, keys[k], i);
          assert keys[..k + 1] == keys[..k] + [keys[k]];
          if Bit(keys[k], i) { assert keys[k] in keys[..k + 1]; }
        }
        bits := Or(bits, keys[k]);
      }
      assert keys[..|keys|] == keys;
    }
  }
}
