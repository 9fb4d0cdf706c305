/** `VkEnum.add_value`: values, and aliases that may come before what they stand for. */
module EnumAlias {

  type Name = string

  /** One declaration, as `add_value_from_xml` hands it on. */
  datatype Decl =
    | Direct(name: Name, value: int)
    | Extension(name: Name, extnum: int, offset: int, error: bool)
    | Alias(name: Name, target: Name)

  /** The value of an enumerant that an extension adds. */
  function ExtensionValue(extnum: int, offset: int, error: bool): int {
    var value := 1000000000 + (extnum - 1) * 1000 + offset;
    if error then -value else value
  }

  /** Extension numbers from 1 and offsets below 1000 are never confused. */
  lemma ExtensionValuesAreDistinct(e1: int, o1: int, b1: bool, e2: int, o2: int, b2: bool)
    requires e1 >= 1 && e2 >= 1 && 0 <= o1 < 1000 && 0 <= o2 < 1000
    ensures ExtensionValue(e1, o1, b1) == ExtensionValue(e2, o2, b2) <==> (e1, o1, b1) == (e2, o2, b2)
  {
  }

  /** Extension number, offset and sign are read off a value. */
  lemma ExtensionValueReadsOff(extnum: int, offset: int, error: bool)
    requires extnum >= 1 && 0 <= offset < 1000
    ensures var value := ExtensionValue(extnum, offset, error);
            var v := if value < 0 then -value else value;
            && (value < 0 <==> error)
            && v >= 1000000000
            && (v - 1000000000) / 1000 + 1 == extnum
            && v % 1000 == offset
  {
  }

  /** The value in a declaration that is no alias. */
  function DeclValue(d: Decl): int
    requires !d.Alias?
  {
    if d.Direct? then d.value else ExtensionValue(d.extnum, d.offset, d.error)
  }

  predicate Gives(d: Decl, n: Name, v: int) {
    !d.Alias? && d.name == n && DeclValue(d) == v
  }

  // ------------------------------------------------------------------ what a set of declarations means

  ghost predicate Given(ds: seq<Decl>, n: Name, v: int) {
    exists d <- ds :: Gives(d, n, v)
  }

  /** Aliases from name to name, the last of which is given the value. */
  ghost predicate Chain(ds: seq<Decl>, path: seq<Name>, v: int) {
    path != [] &&
    if |path| == 1 then Given(ds, path[0], v) else Alias(path[0], path[1]) in ds && Chain(ds, path[1..], v)
  }

  /** The alias chain of `n` ends in `v`. */
  ghost predicate Means(ds: seq<Decl>, n: Name, v: int) {
    exists path :: Chain(ds, path, v) && path[0] == n
  }

  /** No name has two meanings. */
  ghost predicate Consistent(ds: seq<Decl>) {
    forall n, v, w :: Means(ds, n, v) && Means(ds, n, w) ==> v == w
  }

  /** Aliases go down: `rank` shows that there is no cycle. */
  ghost predicate Acyclic(ds: seq<Decl>, rank: Name -> nat, top: nat) {
    && (forall d <- ds :: rank(d.name) <= top)
    && (forall d <- ds :: d.Alias? ==> rank(d.target) < rank(d.name))
  }

  lemma MeansGiven(ds: seq<Decl>, n: Name, v: int)
    requires Given(ds, n, v)
    ensures Means(ds, n, v)
  {
    assert Chain(ds, [n], v);
  }

  lemma MeansAlias(ds: seq<Decl>, n: Name, t: Name, v: int)
    requires Alias(n, t) in ds && Means(ds, t, v)
    ensures Means(ds, n, v)
  {
    var path :| Chain(ds, path, v) && path[0] == t;
    assert ([n] + path)[1..] == path;
    assert Chain(ds, [n] + path, v);
  }

  lemma {:induction false} ChainGrows(ds: seq<Decl>, es: seq<Decl>, path: seq<Name>, v: int)
    requires Chain(ds, path, v) && forall d <- ds :: d in es
    ensures Chain(es, path, v)
    decreases |path|
  {
    if |path| > 1 {
      ChainGrows(ds, es, path[1..], v);
    } else {
      var d :| d in ds && Gives(d, path[0], v);
      assert d in es;
    }
  }

  /** Meaning depends only on which declarations there are. */
  lemma MeansGrows(ds: seq<Decl>, es: seq<Decl>, n: Name, v: int)
    requires Means(ds, n, v) && forall d <- ds :: d in es
    ensures Means(es, n, v)
  {
    var path :| Chain(ds, path, v) && path[0] == n;
    ChainGrows(ds, es, path, v);
  }

  // ------------------------------------------------------------------ the state and what add_value does to it

  /** `name_to_value`, `values` and `name_to_alias_list`. */
  datatype State = State(known: map<Name, int>, values: map<int, Name>, pending: map<Name, seq<Name>>)

  const INITIAL := State(map[], map[], map[])

  ghost predicate Ranked(pending: map<Name, seq<Name>>, rank: Name -> nat, top: nat) {
    forall t <- pending :: forall n <- pending[t] :: rank(t) < rank(n) <= top
  }

  /** The shortest name of a value is kept. */
  function Record(st: State, n: Name, v: int): State {
    State(st.known[n := v],
          if v !in st.values || |st.values[v]| > |n| then st.values[v := n] else st.values,
          st.pending)
  }

  /** `add_value` with a value: record it, then the aliases that waited for this name. */
  ghost function Settle(st: State, n: Name, v: int, rank: Name -> nat, top: nat): (r: State)
    requires Ranked(st.pending, rank, top) && rank(n) <= top
    ensures r.pending.Keys <= st.pending.Keys && forall t <- r.pending :: r.pending[t] == st.pending[t]
    decreases top - rank(n), 1, 0
  {
    var recorded := Record(st, n, v);
    if n in st.pending then
      var r := SettleAll(recorded, st.pending[n], v, rank, top, rank(n));
      r.(pending := r.pending - {n})
    else recorded
  }

  ghost function SettleAll(st: State, names: seq<Name>, v: int, rank: Name -> nat, top: nat, above: nat): (r: State)
    requires Ranked(st.pending, rank, top) && above <= top && forall n <- names :: above < rank(n) <= top
    ensures r.pending.Keys <= st.pending.Keys && forall t <- r.pending :: r.pending[t] == st.pending[t]
    decreases top - above, 0, |names|
  {
    if names == [] then st
    else
      assert names[|names| - 1] in names;
      Settle(SettleAll(st, names[..|names| - 1], v, rank, top, above), names[|names| - 1], v, rank, top)
  }

  /** `add_value` for any declaration. */
  ghost function Add(st: State, d: Decl, rank: Name -> nat, top: nat): (r: State)
    requires Ranked(st.pending, rank, top) && rank(d.name) <= top
    requires d.Alias? ==> rank(d.target) < rank(d.name)
    ensures Ranked(r.pending, rank, top)
  {
    if !d.Alias? then Settle(st, d.name, DeclValue(d), rank, top)
    else if d.target !in st.known then
      st.(pending := st.pending[d.target := (if d.target in st.pending then st.pending[d.target] else []) + [d.name]])
    else Settle(st, d.name, st.known[d.target], rank, top)
  }

  // ------------------------------------------------------------------ the effect of settling

  /** Everything that waits for `n`, directly or not, and `n`. */
  ghost function Waiting(pending: map<Name, seq<Name>>, n: Name, rank: Name -> nat, top: nat): set<Name>
    requires Ranked(pending, rank, top) && rank(n) <= top
    decreases top - rank(n), 1, 0
  {
    {n} + if n in pending then WaitingAll(pending, pending[n], rank, top, rank(n)) else {}
  }

  ghost function WaitingAll(pending: map<Name, seq<Name>>, names: seq<Name>,
                            rank: Name -> nat, top: nat, above: nat): set<Name>
    requires Ranked(pending, rank, top) && above <= top && forall n <- names :: above < rank(n) <= top
    decreases top - above, 0, |names|
  {
    if names == [] then {}
    else
      assert names[|names| - 1] in names;
      WaitingAll(pending, names[..|names| - 1], rank, top, above) + Waiting(pending, names[|names| - 1], rank, top)
  }

  /** A set that contains, with a name, everything that waits for it. */
  ghost predicate Closed(pending: map<Name, seq<Name>>, s: set<Name>) {
    forall t <- pending :: t in s ==> forall n <- pending[t] :: n in s
  }

  lemma {:induction false} WaitingIsClosed(pending: map<Name, seq<Name>>, n: Name, rank: Name -> nat, top: nat)
    requires Ranked(pending, rank, top) && rank(n) <= top
    ensures Closed(pending, Waiting(pending, n, rank, top))
    decreases top - rank(n), 1, 0
  {
    if n in pending {
      WaitingAllIsClosed(pending, pending[n], rank, top, rank(n));
    }
  }

  lemma {:induction false} WaitingAllIsClosed(pending: map<Name, seq<Name>>, names: seq<Name>,
                                              rank: Name -> nat, top: nat, above: nat)
    requires Ranked(pending, rank, top) && above <= top && forall n <- names :: above < rank(n) <= top
    ensures Closed(pending, WaitingAll(pending, names, rank, top, above))
    ensures forall n <- names :: n in WaitingAll(pending, names, rank, top, above)
    decreases top - above, 0, |names|
  {
    if names != [] {
      var init, last := names[..|names| - 1], names[|names| - 1];
      assert last in names;
      WaitingAllIsClosed(pending, init, rank, top, above);
      WaitingIsClosed(pending, last, rank, top);
      assert forall n <- names :: n in init || n == last;
    }
  }

  /** Taking out a closed set does not lose anything outside it. */
  lemma {:induction false} WaitingWithout(pending: map<Name, seq<Name>>, gone: set<Name>, n: Name,
                                          rank: Name -> nat, top: nat)
    requires Ranked(pending, rank, top) && rank(n) <= top && Closed(pending, gone)
    ensures Waiting(pending - gone, n, rank, top) + gone == Waiting(pending, n, rank, top) + gone
    decreases top - rank(n), 1, 0
  {
    if n in pending {
      if n in gone {
        InClosed(pending, gone, pending[n], rank, top, rank(n));
      } else {
        WaitingAllWithout(pending, gone, pending[n], rank, top, rank(n));
      }
    }
  }

  lemma {:induction false} WaitingAllWithout(pending: map<Name, seq<Name>>, gone: set<Name>, names: seq<Name>,
                                             rank: Name -> nat, top: nat, above: nat)
    requires Ranked(pending, rank, top) && above <= top && forall n <- names :: above < rank(n) <= top
    requires Closed(pending, gone)
    ensures WaitingAll(pending - gone, names, rank, top, above) + gone == WaitingAll(pending, names, rank, top, above) + gone
    decreases top - above, 0, |names|
  {
    if names != [] {
      var init, last := names[..|names| - 1], names[|names| - 1];
      assert last in names;
      WaitingAllWithout(pending, gone, init, rank, top, above);
      WaitingWithout(pending, gone, last, rank, top);
    }
  }

  lemma {:induction false} InClosed(pending: map<Name, seq<Name>>, gone: set<Name>, names: seq<Name>,
                                    rank: Name -> nat, top: nat, above: nat)
    requires Ranked(pending, rank, top) && above <= top && forall n <- names :: above < rank(n) <= top && n in gone
    requires Closed(pending, gone)
    ensures WaitingAll(pending, names, rank, top, above) <= gone
    decreases top - above, 0, |names|
  {
    if names != [] {
      var init, last := names[..|names| - 1], names[|names| - 1];
      assert last in names;
      InClosed(pending, gone, init, rank, top, above);
      if last in pending { InClosed(pending, gone, pending[last], rank, top, rank(last)); }
    }
  }

  ghost predicate ValuesOk(values: map<int, Name>, known: map<Name, int>) {
    && (forall n <- known :: known[n] in values && |values[known[n]]| <= |n|)
    && (forall v <- values :: values[v] in known && known[values[v]] == v)
  }

  /** `known` with the value `v` for every name in a set. */
  function With(known: map<Name, int>, names: set<Name>, v: int): map<Name, int> {
    map n <- known.Keys + names :: if n in names then v else known[n]
  }

  /** None of the names has another value already. */
  ghost predicate Agrees(known: map<Name, int>, names: set<Name>, v: int) {
    forall n <- names :: n in known ==> known[n] == v
  }

  lemma RecordKeepsValues(st: State, n: Name, v: int)
    requires ValuesOk(st.values, st.known) && (n in st.known ==> st.known[n] == v)
    ensures ValuesOk(Record(st, n, v).values, Record(st, n, v).known)
  {
  }

  lemma WithTwice(known: map<Name, int>, a: set<Name>, b: set<Name>, v: int)
    ensures With(With(known, a, v), b, v) == With(known, a + b, v)
  {
  }

  lemma WithOne(known: map<Name, int>, n: Name, v: int)
    ensures With(known, {n}, v) == known[n := v]
    ensures With(known, {}, v) == known
  {
  }

  /** Settling a name gives its value to everything that waits for it, and to nothing else. */
  lemma {:induction false} SettleEffect(st: State, n: Name, v: int, rank: Name -> nat, top: nat)
    requires Ranked(st.pending, rank, top) && rank(n) <= top
    ensures var w, r := Waiting(st.pending, n, rank, top), Settle(st, n, v, rank, top);
            r.known == With(st.known, w, v) && r.pending == st.pending - w
    decreases top - rank(n), 1, 0
  {
    hide With;
    WithOne(st.known, n, v);
    if n in st.pending {
      var w := WaitingAll(st.pending, st.pending[n], rank, top, rank(n));
      SettleAllEffect(Record(st, n, v), st.pending[n], v, rank, top, rank(n));
      WithTwice(st.known, {n}, w, v);
      assert st.pending - w - {n} == st.pending - ({n} + w);
    } else {
      assert {n} + {} == {n};
      assert st.pending - {n} == st.pending;
    }
  }

  lemma {:induction false} SettleAllEffect(st: State, names: seq<Name>, v: int, rank: Name -> nat, top: nat, above: nat)
    requires Ranked(st.pending, rank, top) && above <= top && forall n <- names :: above < rank(n) <= top
    ensures var w, r := WaitingAll(st.pending, names, rank, top, above), SettleAll(st, names, v, rank, top, above);
            r.known == With(st.known, w, v) && r.pending == st.pending - w
    decreases top - above, 0, |names|
  {
    hide With;
    if names == [] {
      WithOne(st.known, "", v);
      assert st.pending - {} == st.pending;
    } else {
      var init, last := names[..|names| - 1], names[|names| - 1];
      assert last in names;
      SettleAllEffect(st, init, v, rank, top, above);
      var mid := SettleAll(st, init, v, rank, top, above);
      var w1 := WaitingAll(st.pending, init, rank, top, above);
      SettleEffect(mid, last, v, rank, top);
      WaitingAllIsClosed(st.pending, init, rank, top, above);
      WaitingWithout(st.pending, w1, last, rank, top);
      JoinEffects(st.known, st.pending, w1, Waiting(mid.pending, last, rank, top),
                  Waiting(st.pending, last, rank, top), v);
    }
  }

  lemma JoinEffects(known: map<Name, int>, pending: map<Name, seq<Name>>, w1: set<Name>, w2': set<Name>, w2: set<Name>, v: int)
    requires w2' + w1 == w2 + w1
    ensures With(With(known, w1, v), w2', v) == With(known, w1 + w2, v)
    ensures pending - w1 - w2' == pending - (w1 + w2)
  {
  }

  lemma {:induction false} SettleKeepsValues(st: State, n: Name, v: int, rank: Name -> nat, top: nat)
    requires Ranked(st.pending, rank, top) && rank(n) <= top
    requires ValuesOk(st.values, st.known) && Agrees(st.known, Waiting(st.pending, n, rank, top), v)
    ensures ValuesOk(Settle(st, n, v, rank, top).values, Settle(st, n, v, rank, top).known)
    decreases top - rank(n), 1, 0
  {
    hide ValuesOk;
    RecordKeepsValues(st, n, v);
    if n in st.pending {
      SettleAllKeepsValues(Record(st, n, v), st.pending[n], v, rank, top, rank(n));
    }
  }

  lemma {:induction false} SettleAllKeepsValues(st: State, names: seq<Name>, v: int,
                                                rank: Name -> nat, top: nat, above: nat)
    requires Ranked(st.pending, rank, top) && above <= top && forall n <- names :: above < rank(n) <= top
    requires ValuesOk(st.values, st.known) && Agrees(st.known, WaitingAll(st.pending, names, rank, top, above), v)
    ensures var r := SettleAll(st, names, v, rank, top, above); ValuesOk(r.values, r.known)
    decreases top - above, 0, |names|
  {
    hide ValuesOk;
    if names != [] {
      var init, last := names[..|names| - 1], names[|names| - 1];
      assert last in names;
      SettleAllKeepsValues(st, init, v, rank, top, above);
      var mid := SettleAll(st, init, v, rank, top, above);
      var w1 := WaitingAll(st.pending, init, rank, top, above);
      SettleAllEffect(st, init, v, rank, top, above);
      WaitingAllIsClosed(st.pending, init, rank, top, above);
      WaitingWithout(st.pending, w1, last, rank, top);
      StillAgrees(st.known, w1, Waiting(mid.pending, last, rank, top), Waiting(st.pending, last, rank, top), v);
      SettleKeepsValues(mid, last, v, rank, top);
    }
  }

  lemma StillAgrees(known: map<Name, int>, w1: set<Name>, w2': set<Name>, w2: set<Name>, v: int)
    requires Agrees(known, w1 + w2, v) && w2' + w1 == w2 + w1
    ensures Agrees(With(known, w1, v), w2', v)
  {
  }
}
