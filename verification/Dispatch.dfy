/** Entrypoints, their aliases, and the compacted dispatch tables behind the string map. */
module Dispatch {
  import opened Probing
  import opened StringMap

  // ------------------------------------------------------------------ get_entrypoints

  datatype Kind = Device | PhysicalDevice | Instance

  /** One `<command>` of the registry: its own signature, reduced to the type of its first parameter, or
      an alias. */
  datatype Command = Command(name: Name, handle: string) | AliasCommand(name: Name, target: Name)

  datatype Entrypoint = Entrypoint(name: Name, handle: string) | EntrypointAlias(name: Name, target: Name)

  datatype Outcome =
    | Entrypoints(es: seq<Entrypoint>)
    | KeyError(name: Name)
    | AttributeError(name: Name)
    | AssertionError(name: Name)

  /** Position of the entrypoint with a name, or the length. */
  function Index(es: seq<Entrypoint>, name: Name): (i: nat)
    ensures i <= |es|
    ensures i < |es| ==> es[i].name == name
    ensures forall j :: 0 <= j < i ==> es[j].name != name
  {
    if es == [] then 0 else if es[0].name == name then 0 else 1 + Index(es[1..], name)
  }

  /** Names are distinct, and every alias stands behind the ordinary entrypoint it names. */
  ghost predicate WellAliased(es: seq<Entrypoint>) {
    && (forall i, j :: 0 <= i < j < |es| ==> es[i].name != es[j].name)
    && (forall i :: 0 <= i < |es| && es[i].EntrypointAlias? ==>
          Index(es, es[i].target) < i && es[Index(es, es[i].target)].Entrypoint?)
  }

  lemma DistinctNames(es: seq<Entrypoint>, i: nat, j: nat)
    requires WellAliased(es) && i < j < |es|
    ensures es[i].name != es[j].name
  {
  }

  lemma {:induction false} IndexIs(es: seq<Entrypoint>, name: Name, i: nat)
    requires i < |es| && es[i].name == name && forall j :: 0 <= j < i ==> es[j].name != name
    ensures Index(es, name) == i
  {
  }

  lemma IndexOfPrefix(es: seq<Entrypoint>, e: Entrypoint, name: Name)
    requires Index(es, name) < |es|
    ensures Index(es + [e], name) == Index(es, name)
  {
    IndexIs(es + [e], name, Index(es, name));
  }

  lemma AddEntrypoint(es: seq<Entrypoint>, e: Entrypoint)
    requires WellAliased(es) && Index(es, e.name) == |es|
    requires e.EntrypointAlias? ==> Index(es, e.target) < |es| && es[Index(es, e.target)].Entrypoint?
    ensures WellAliased(es + [e])
  {
    var es' := es + [e];
    forall i | 0 <= i < |es'| && es'[i].EntrypointAlias?
      ensures Index(es', es'[i].target) < i && es'[Index(es', es'[i].target)].Entrypoint?
    {
      IndexOfPrefix(es, e, es'[i].target);
    }
  }

  /** The required commands, in order. */
  function EntrypointsOf(commands: seq<Command>, required: set<Name>): seq<Entrypoint> {
    if commands == [] then []
    else
      var c := commands[|commands| - 1];
      EntrypointsOf(commands[..|commands| - 1], required)
      + if c.name !in required then []
        else [if c.Command? then Entrypoint(c.name, c.handle) else EntrypointAlias(c.name, c.target)]
  }

  /** An entry with the name of a command and its signature or its target. */
  predicate MadeFrom(e: Entrypoint, c: Command) {
    && e.name == c.name
    && (c.Command? ==> e.Entrypoint? && e.handle == c.handle)
    && (c.AliasCommand? ==> e.EntrypointAlias? && e.target == c.target)
  }

  /** Positions below `n`, in order. */
  ghost predicate Increasing(ps: seq<nat>, n: nat) {
    (forall i :: 0 <= i < |ps| ==> ps[i] < n) && forall i, j :: 0 <= i < j < |ps| ==> ps[i] < ps[j]
  }

  lemma IncreasingMore(ps: seq<nat>, n: nat)
    requires Increasing(ps, n)
    ensures Increasing(ps, n + 1) && Increasing(ps + [n], n + 1)
  {
  }

  /** Every entry is made from the command at its position. */
  ghost predicate AllMadeFrom(es: seq<Entrypoint>, ks: seq<nat>, commands: seq<Command>, required: set<Name>) {
    |ks| == |es| &&
    forall i :: 0 <= i < |es| ==>
      ks[i] < |commands| && MadeFrom(es[i], commands[ks[i]]) && es[i].name in required
  }

  /** Every required command has its entry. */
  ghost predicate AllRequired(ks: seq<nat>, commands: seq<Command>, required: set<Name>) {
    forall k :: 0 <= k < |commands| && commands[k].name in required ==> k in ks
  }

  /** `es` has, for each required command, in order, an entry with its name and its signature or target;
      `ks` says which command an entry comes from. */
  ghost predicate ComesFrom(es: seq<Entrypoint>, ks: seq<nat>, commands: seq<Command>, required: set<Name>) {
    Increasing(ks, |commands|) && AllMadeFrom(es, ks, commands, required) && AllRequired(ks, commands, required)
  }

  lemma {:induction false} EntrypointsComeFrom(commands: seq<Command>, required: set<Name>) returns (ks: seq<nat>)
    ensures ComesFrom(EntrypointsOf(commands, required), ks, commands, required)
    decreases |commands|
  {
    ks := [];
    if commands != [] {
      var init, last := commands[..|commands| - 1], commands[|commands| - 1];
      var before := EntrypointsComeFrom(init, required);
      hide EntrypointsOf;
      ks := if last.name in required then before + [|init|] else before;
      OneMoreCommand(commands, required, before, ks);
    }
  }

  lemma OneMoreCommand(commands: seq<Command>, required: set<Name>, before: seq<nat>, ks: seq<nat>)
    requires commands != []
    requires var init, last := commands[..|commands| - 1], commands[|commands| - 1];
             && ComesFrom(EntrypointsOf(init, required), before, init, required)
             && ks == if last.name in required then before + [|init|] else before
    ensures ComesFrom(EntrypointsOf(commands, required), ks, commands, required)
  {
    var init, last := commands[..|commands| - 1], commands[|commands| - 1];
    LastEntrypoint(commands, required);
    hide EntrypointsOf, Increasing, AllMadeFrom, AllRequired, MadeFrom;
    IncreasingMore(before, |init|);
    OneMoreMade(EntrypointsOf(init, required), EntrypointsOf(commands, required), before, commands, required);
    OneMoreRequired(before, commands, required);
  }

  lemma OneMoreMade(es: seq<Entrypoint>, fs: seq<Entrypoint>, before: seq<nat>, commands: seq<Command>, required: set<Name>)
    requires commands != [] && AllMadeFrom(es, before, commands[..|commands| - 1], required)
    requires var last := commands[|commands| - 1];
             if last.name !in required then fs == es
             else |fs| == |es| + 1 && fs[..|es|] == es && MadeFrom(fs[|es|], last)
    ensures AllMadeFrom(fs, if commands[|commands| - 1].name in required then before + [|commands| - 1] else before,
                        commands, required)
  {
    var n := |commands| - 1;
    var ks := if commands[n].name in required then before + [n] else before;
    hide MadeFrom;
    forall i | 0 <= i < |fs| ensures ks[i] < |commands| && MadeFrom(fs[i], commands[ks[i]]) {
      if i < |es| {
        assert fs[i] == es[i] && ks[i] == before[i];
        assert commands[..n][before[i]] == commands[before[i]];
      }
    }
    forall i | 0 <= i < |fs| ensures fs[i].name in required {
      if i < |es| { assert fs[i] == es[i]; } else { SameName(fs[i], commands[n]); }
    }
  }

  lemma SameName(e: Entrypoint, c: Command)
    requires MadeFrom(e, c)
    ensures e.name == c.name
  {
  }

  lemma OneMoreRequired(before: seq<nat>, commands: seq<Command>, required: set<Name>)
    requires commands != [] && AllRequired(before, commands[..|commands| - 1], required)
    ensures AllRequired(if commands[|commands| - 1].name in required then before + [|commands| - 1] else before,
                        commands, required)
  {
    var n := |commands| - 1;
    var ks := if commands[n].name in required then before + [n] else before;
    forall k | 0 <= k < |commands| && commands[k].name in required ensures k in ks {
      if k < n { assert commands[..n][k] == commands[k] && k in before; } else { assert ks[|before|] == k; }
    }
  }

  lemma LastEntrypoint(commands: seq<Command>, required: set<Name>)
    requires commands != []
    ensures var es, last := EntrypointsOf(commands[..|commands| - 1], required), commands[|commands| - 1];
            if last.name !in required then EntrypointsOf(commands, required) == es
            else |EntrypointsOf(commands, required)| == |es| + 1
                 && EntrypointsOf(commands, required)[..|es|] == es
                 && MadeFrom(EntrypointsOf(commands, required)[|es|], last)
  {
  }

  // ------------------------------------------------------------------ what goes wrong with a command

  /** `entrypoints[target]` fails. */
  ghost predicate NoTarget(commands: seq<Command>, required: set<Name>, k: nat)
    requires k < |commands|
  {
    && commands[k].AliasCommand?
    && (commands[k].target in required ==> forall c <- commands[..k] :: c.name != commands[k].target)
  }

  /** The target has no list of aliases, because it is one itself. */
  ghost predicate AliasOfAlias(commands: seq<Command>, required: set<Name>, k: nat)
    requires k < |commands|
  {
    && commands[k].AliasCommand? && commands[k].target in required
    && exists c <- commands[..k] :: c.AliasCommand? && c.name == commands[k].target
  }

  /** The name is there already. */
  ghost predicate Twice(commands: seq<Command>, required: set<Name>, k: nat)
    requires k < |commands|
  {
    commands[k].name in required && exists c <- commands[..k] :: c.name == commands[k].name
  }

  ghost predicate Faulty(commands: seq<Command>, required: set<Name>, k: nat)
    requires k < |commands|
  {
    NoTarget(commands, required, k) || AliasOfAlias(commands, required, k) || Twice(commands, required, k)
  }

  /** `k` is the first faulty command, and `r` says what is wrong with it. */
  ghost predicate FirstFault(r: Outcome, commands: seq<Command>, required: set<Name>, k: nat) {
    && k < |commands| && !r.Entrypoints? && r.name == commands[k].name
    && (forall j :: 0 <= j < k ==> !Faulty(commands, required, j))
    && (NoTarget(commands, required, k) ==> r.KeyError?)
    && (AliasOfAlias(commands, required, k) ==> r.AttributeError?)
    && (r.KeyError? ==> NoTarget(commands, required, k))
    && (r.AttributeError? ==> AliasOfAlias(commands, required, k))
    && (r.AssertionError? ==> Twice(commands, required, k))
  }

  lemma FaultFound(r: Outcome, commands: seq<Command>, required: set<Name>, k: nat)
    requires k < |commands| && !r.Entrypoints? && r.name == commands[k].name
    requires forall j :: 0 <= j < k ==> !Faulty(commands, required, j)
    requires NoTarget(commands, required, k) <==> r.KeyError?
    requires AliasOfAlias(commands, required, k) <==> r.AttributeError?
    requires r.AssertionError? ==> Twice(commands, required, k)
    ensures Faulty(commands, required, k) && FirstFault(r, commands, required, k)
  {
    hide NoTarget, AliasOfAlias, Twice;
  }

  lemma NoFault(commands: seq<Command>, required: set<Name>, k: nat)
    requires k < |commands|
    requires !NoTarget(commands, required, k) && !AliasOfAlias(commands, required, k) && !Twice(commands, required, k)
    ensures !Faulty(commands, required, k)
  {
  }

  lemma TwiceIs(commands: seq<Command>, required: set<Name>, k: nat, es: seq<Entrypoint>)
    requires k < |commands|
    requires forall n :: Index(es, n) < |es| <==> n in required && exists c <- commands[..k] :: c.name == n
    ensures Twice(commands, required, k) <==> Index(es, commands[k].name) < |es|
  {
    hide Index;
  }

  /** What is already there under the name of an alias's target. */
  lemma TargetIs(commands: seq<Command>, required: set<Name>, k: nat, es: seq<Entrypoint>)
    requires k < |commands| && commands[k].AliasCommand? && es == EntrypointsOf(commands[..k], required)
    requires forall n :: Index(es, n) < |es| <==> n in required && exists c <- commands[..k] :: c.name == n
    requires forall j :: 0 <= j < k ==> !Faulty(commands, required, j)
    ensures var t := Index(es, commands[k].target);
            && (NoTarget(commands, required, k) <==> t == |es|)
            && (AliasOfAlias(commands, required, k) <==> t < |es| && es[t].EntrypointAlias?)
  {
    var target := commands[k].target;
    var t := Index(es, target);
    if t < |es| {
      var ks := EntrypointsComeFrom(commands[..k], required);
      hide EntrypointsOf, Index;
      assert commands[ks[t]].name == target;
      forall j | 0 <= j < k && commands[j].name == target ensures j == ks[t] {
        OnlyOne(commands, required, k, j, ks[t]);
      }
    }
  }

  /** Without a fault before, a required name is declared only once. */
  lemma OnlyOne(commands: seq<Command>, required: set<Name>, k: nat, i: nat, j: nat)
    requires k <= |commands| && i < k && j < k && commands[i].name == commands[j].name && commands[i].name in required
    requires forall j :: 0 <= j < k ==> !Faulty(commands, required, j)
    ensures i == j
  {
    if i < j { RepeatedIsFaulty(commands, required, i, j); }
    if j < i { RepeatedIsFaulty(commands, required, j, i); }
  }

  lemma RepeatedIsFaulty(commands: seq<Command>, required: set<Name>, i: nat, j: nat)
    requires i < j < |commands| && commands[i].name == commands[j].name && commands[j].name in required
    ensures Faulty(commands, required, j)
  {
    assert commands[..j][i] == commands[i];
    assert commands[i] in commands[..j];
    assert Twice(commands, required, j);
  }

  /** `get_entrypoints`: an alias needs its target to be there already, and not to be an alias itself. The
      result is the required commands; without one, it is the error of the first faulty command. */
  method GetEntrypoints(commands: seq<Command>, required: set<Name>) returns (r: Outcome)
    ensures r.Entrypoints? <==> forall k :: 0 <= k < |commands| ==> !Faulty(commands, required, k)
    ensures r.Entrypoints? ==> r.es == EntrypointsOf(commands, required) && WellAliased(r.es)
    ensures r.Entrypoints? ==> exists ks :: ComesFrom(r.es, ks, commands, required)
    ensures r.Entrypoints? ==>
              forall n :: Index(r.es, n) < |r.es| <==> n in required && exists c <- commands :: c.name == n
    ensures !r.Entrypoints? ==> exists k :: FirstFault(r, commands, required, k)
  {
    hide Index, WellAliased, EntrypointsOf, NoTarget, AliasOfAlias, ComesFrom, Twice, Faulty, FirstFault;
    var es: seq<Entrypoint> := [];
    NothingThere(required);
    for k := 0 to |commands|
      invariant WellAliased(es) && es == EntrypointsOf(commands[..k], required)
      invariant forall n :: Index(es, n) < |es| <==> n in required && exists c <- commands[..k] :: c.name == n
      invariant forall j :: 0 <= j < k ==> !Faulty(commands, required, j)
    {
      var c := commands[k];
      var e: Entrypoint;
      match c {
        case AliasCommand(name, target) =>
          TargetIs(commands, required, k, es);
          var t := Index(es, target);
          if t == |es| {
            r := KeyError(name);
            FaultFound(r, commands, required, k);
            return;
          }
          if es[t].EntrypointAlias? {
            r := AttributeError(name);
            FaultFound(r, commands, required, k);
            return;
          }
          e := EntrypointAlias(name, target);
        case Command(name, handle) =>
          OrdinaryIsNoAlias(commands, required, k);
          e := Entrypoint(name, handle);
      }
      ghost var before := es;
      TwiceIs(commands, required, k, es);
      if c.name in required {
        if Index(es, c.name) < |es| {
          r := AssertionError(c.name);
          FaultFound(r, commands, required, k);
          return;
        }
        AddEntrypoint(es, e);
        es := es + [e];
      }
      NamesAfter(commands, k, required, before, es, e);
      NextEntrypoints(commands, k, required);
      NoFault(commands, required, k);
    }
    assert commands[..|commands|] == commands;
    ghost var ks := EntrypointsComeFrom(commands, required);
    return Entrypoints(es);
  }

  lemma OrdinaryIsNoAlias(commands: seq<Command>, required: set<Name>, k: nat)
    requires k < |commands| && commands[k].Command?
    ensures !NoTarget(commands, required, k) && !AliasOfAlias(commands, required, k)
  {
  }

  lemma NextEntrypoints(commands: seq<Command>, k: nat, required: set<Name>)
    requires k < |commands|
    ensures var c := commands[k];
            EntrypointsOf(commands[..k + 1], required) ==
            EntrypointsOf(commands[..k], required)
            + if c.name !in required then []
              else [if c.Command? then Entrypoint(c.name, c.handle) else EntrypointAlias(c.name, c.target)]
  {
    assert commands[..k + 1][..k] == commands[..k];
  }

  lemma NothingThere(required: set<Name>)
    ensures WellAliased([]) && EntrypointsOf([], required) == [] && forall n :: Index([], n) == 0
  {
  }

  lemma NamesAfter(commands: seq<Command>, k: nat, required: set<Name>, before: seq<Entrypoint>,
                   es: seq<Entrypoint>, e: Entrypoint)
    requires k < |commands| && e.name == commands[k].name
    requires forall n :: Index(before, n) < |before| <==> n in required && exists c <- commands[..k] :: c.name == n
    requires es == if e.name in required then before + [e] else before
    ensures forall n :: Index(es, n) < |es| <==> n in required && exists c <- commands[..k + 1] :: c.name == n
  {
    hide Index;
    assert commands[..k + 1] == commands[..k] + [commands[k]];
    forall n ensures Index(es, n) < |es| <==> n in required && exists c <- commands[..k + 1] :: c.name == n {
      NewName(before, es, e, n);
    }
  }

  lemma NewName(before: seq<Entrypoint>, es: seq<Entrypoint>, e: Entrypoint, n: Name)
    requires es == before || es == before + [e]
    ensures Index(es, n) < |es| <==> Index(before, n) < |before| || (es != before && n == e.name)
  {
    if es == before + [e] {
      if Index(before, n) < |before| {
        IndexOfPrefix(before, e, n);
      } else if n == e.name {
        IndexIs(es, n, |before|);
      }
    }
  }

  // ------------------------------------------------------------------ the three lists

  /** `is_device_entrypoint` and `is_physical_device_entrypoint` of an ordinary entrypoint. */
  function HandleKind(handle: string): Kind {
    if handle in {"VkDevice", "VkCommandBuffer", "VkQueue"} then Device
    else if handle in {"VkPhysicalDevice"} then PhysicalDevice
    else Instance
  }

  /** An alias asks its target. */
  function KindOf(es: seq<Entrypoint>, i: nat): Kind
    requires WellAliased(es) && i < |es|
  {
    match es[i]
    case Entrypoint(_, handle) => HandleKind(handle)
    case EntrypointAlias(_, target) => HandleKind(es[Index(es, target)].handle)
  }

  /** The entrypoints of one kind among the first `n`, in order. */
  function OfKind(es: seq<Entrypoint>, kind: Kind, n: nat): seq<Entrypoint>
    requires WellAliased(es) && n <= |es|
  {
    if n == 0 then [] else OfKind(es, kind, n - 1) + if KindOf(es, n - 1) == kind then [es[n - 1]] else []
  }

  lemma {:induction false} OfKindNames(es: seq<Entrypoint>, kind: Kind, n: nat, name: Name)
    requires WellAliased(es) && n <= |es|
    ensures var ks := OfKind(es, kind, n);
            && (Index(ks, name) < |ks| <==> Index(es, name) < n && KindOf(es, Index(es, name)) == kind)
            && (Index(ks, name) < |ks| ==> ks[Index(ks, name)] == es[Index(es, name)])
  {
    hide Index, WellAliased, OfKind, KindOf;
    if n == 0 {
      OfNoKind(es, kind, name);
    } else {
      OfKindNames(es, kind, n - 1, name);
      OwnIndex(es, n - 1);
      var ks, e := OfKind(es, kind, n - 1), es[n - 1];
      OfKindStep(es, kind, n);
      NewName(ks, OfKind(es, kind, n), e, name);
      if Index(ks, name) < |ks| {
        IndexOfPrefix(ks, e, name);
      } else if e.name == name {
        if KindOf(es, n - 1) == kind { IndexOfNew(ks, e); }
      }
    }
  }

  lemma OfNoKind(es: seq<Entrypoint>, kind: Kind, name: Name)
    requires WellAliased(es)
    ensures OfKind(es, kind, 0) == [] && Index([], name) == 0
  {
  }

  lemma OwnIndex(es: seq<Entrypoint>, i: nat)
    requires WellAliased(es) && i < |es|
    ensures Index(es, es[i].name) == i
  {
    IndexIs(es, es[i].name, i);
  }

  lemma IndexOfNew(ks: seq<Entrypoint>, e: Entrypoint)
    requires Index(ks, e.name) == |ks|
    ensures Index(ks + [e], e.name) == |ks|
  {
    IndexIs(ks + [e], e.name, |ks|);
  }

  lemma OfKindStep(es: seq<Entrypoint>, kind: Kind, n: nat)
    requires WellAliased(es) && 0 < n <= |es|
    ensures OfKind(es, kind, n) == OfKind(es, kind, n - 1) + if KindOf(es, n - 1) == kind then [es[n - 1]] else []
  {
  }

  /** The list of one kind is closed under aliasing: whoever has an alias in it is in it too. */
  lemma {:induction false} OfKindWellAliased(es: seq<Entrypoint>, kind: Kind, n: nat)
    requires WellAliased(es) && n <= |es|
    ensures WellAliased(OfKind(es, kind, n))
  {
    if n > 0 {
      OfKindWellAliased(es, kind, n - 1);
      if KindOf(es, n - 1) == kind {
        FitsBehind(es, kind, n);
        hide WellAliased;
        AddEntrypoint(OfKind(es, kind, n - 1), es[n - 1]);
      } else {
        assert OfKind(es, kind, n) == OfKind(es, kind, n - 1);
      }
    }
  }

  lemma FitsBehind(es: seq<Entrypoint>, kind: Kind, n: nat)
    requires WellAliased(es) && 0 < n <= |es| && KindOf(es, n - 1) == kind
    ensures var ks, e := OfKind(es, kind, n - 1), es[n - 1];
            && Index(ks, e.name) == |ks|
            && (e.EntrypointAlias? ==> Index(ks, e.target) < |ks| && ks[Index(ks, e.target)].Entrypoint?)
  {
    hide OfKind;
    var e := es[n - 1];
    IndexIs(es, e.name, n - 1);
    OfKindNames(es, kind, n - 1, e.name);
    if e.EntrypointAlias? { OfKindNames(es, kind, n - 1, e.target); }
  }

  /** The entries at some positions. */
  ghost predicate EntriesAt(ks: seq<Entrypoint>, ps: seq<nat>, es: seq<Entrypoint>) {
    |ps| == |ks| && forall i :: 0 <= i < |ps| ==> ps[i] < |es| && ks[i] == es[ps[i]]
  }

  lemma EntriesMore(ks: seq<Entrypoint>, ps: seq<nat>, es: seq<Entrypoint>, p: nat)
    requires EntriesAt(ks, ps, es) && p < |es|
    ensures EntriesAt(ks + [es[p]], ps + [p], es)
  {
  }

  /** All positions below `n` that ask for a kind, and no others. */
  ghost predicate AllOfKind(ps: seq<nat>, es: seq<Entrypoint>, kind: Kind, n: nat)
    requires WellAliased(es) && n <= |es|
  {
    forall p :: 0 <= p < n ==> (p in ps <==> KindOf(es, p) == kind)
  }

  lemma AllOfKindMore(ps: seq<nat>, es: seq<Entrypoint>, kind: Kind, n: nat)
    requires WellAliased(es) && n < |es| && AllOfKind(ps, es, kind, n) && n !in ps
    ensures AllOfKind(if KindOf(es, n) == kind then ps + [n] else ps, es, kind, n + 1)
  {
    hide WellAliased, KindOf;
    forall p | 0 <= p < n + 1
      ensures p in (if KindOf(es, n) == kind then ps + [n] else ps) <==> KindOf(es, p) == kind
    {
      if p == n && KindOf(es, n) == kind { assert (ps + [n])[|ps|] == n; }
    }
  }

  /** Which positions the list of one kind has: all that ask for this kind, in order. */
  lemma {:induction false} OfKindPositions(es: seq<Entrypoint>, kind: Kind, n: nat) returns (ps: seq<nat>)
    requires WellAliased(es) && n <= |es|
    ensures EntriesAt(OfKind(es, kind, n), ps, es) && Increasing(ps, n)
    ensures AllOfKind(ps, es, kind, n)
  {
    hide *;
    if n == 0 {
      ps := [];
      NoPositions(es, kind);
    } else {
      var before := OfKindPositions(es, kind, n - 1);
      ps := if KindOf(es, n - 1) == kind then before + [n - 1] else before;
      OnePositionMore(es, kind, n - 1, before);
    }
  }

  lemma NoPositions(es: seq<Entrypoint>, kind: Kind)
    requires WellAliased(es)
    ensures EntriesAt(OfKind(es, kind, 0), [], es) && Increasing([], 0) && AllOfKind([], es, kind, 0)
  {
  }

  lemma OnePositionMore(es: seq<Entrypoint>, kind: Kind, n: nat, before: seq<nat>)
    requires WellAliased(es) && n < |es|
    requires EntriesAt(OfKind(es, kind, n), before, es) && Increasing(before, n) && AllOfKind(before, es, kind, n)
    ensures var ps := if KindOf(es, n) == kind then before + [n] else before;
            EntriesAt(OfKind(es, kind, n + 1), ps, es) && Increasing(ps, n + 1) && AllOfKind(ps, es, kind, n + 1)
  {
    OfKindStep(es, kind, n + 1);
    hide WellAliased, KindOf, OfKind, Increasing, EntriesAt, AllOfKind;
    NotYet(before, n);
    AllOfKindMore(before, es, kind, n);
    IncreasingMore(before, n);
    EntriesMore(OfKind(es, kind, n), before, es, n);
    if KindOf(es, n) != kind { assert OfKind(es, kind, n + 1) == OfKind(es, kind, n); }
  }

  lemma NotYet(ps: seq<nat>, n: nat)
    requires Increasing(ps, n)
    ensures n !in ps
  {
  }

  /** The kind goes by the first parameter of the command an entry stands for. */
  lemma KindByHandle(es: seq<Entrypoint>, i: nat, j: nat)
    requires WellAliased(es) && i < |es| && j < |es| && es[j].Entrypoint?
    requires es[j].name == if es[i].EntrypointAlias? then es[i].target else es[i].name
    ensures KindOf(es, i) == Device <==> es[j].handle in {"VkDevice", "VkCommandBuffer", "VkQueue"}
    ensures KindOf(es, i) == PhysicalDevice <==> es[j].handle == "VkPhysicalDevice"
  {
    OwnIndex(es, i);
    OwnIndex(es, j);
  }

  /** The loop of `main` that splits the entrypoints into three lists. */
  method SplitEntrypoints(es: seq<Entrypoint>)
    returns (device: seq<Entrypoint>, physicalDevice: seq<Entrypoint>, instance: seq<Entrypoint>)
    requires WellAliased(es)
    ensures device == OfKind(es, Device, |es|)
    ensures physicalDevice == OfKind(es, PhysicalDevice, |es|)
    ensures instance == OfKind(es, Instance, |es|)
  {
    hide WellAliased;
    device, physicalDevice, instance := [], [], [];
    for i := 0 to |es|
      invariant device == OfKind(es, Device, i)
      invariant physicalDevice == OfKind(es, PhysicalDevice, i)
      invariant instance == OfKind(es, Instance, i)
    {
      if KindOf(es, i) == Device {
        device := device + [es[i]];
      } else if KindOf(es, i) == PhysicalDevice {
        physicalDevice := physicalDevice + [es[i]];
      } else {
        instance := instance + [es[i]];
      }
    }
  }

  // ------------------------------------------------------------------ slots

  /** How many of the first `n` are no aliases. */
  function Plains(es: seq<Entrypoint>, n: nat): nat
    requires n <= |es|
  {
    if n == 0 then 0 else Plains(es, n - 1) + if es[n - 1].Entrypoint? then 1 else 0
  }

  /** The command behind entry `i`. */
  function Canonical(es: seq<Entrypoint>, i: nat): nat
    requires WellAliased(es) && i < |es|
  {
    if es[i].EntrypointAlias? then Index(es, es[i].target) else i
  }

  /** `disp_table_index`: the number given to an entrypoint, delegated by its aliases. */
  function DispIndex(es: seq<Entrypoint>, i: nat): nat
    requires WellAliased(es) && i < |es|
  {
    Plains(es, Canonical(es, i))
  }

  lemma {:induction false} PlainsGrow(es: seq<Entrypoint>, i: nat, j: nat)
    requires i <= j <= |es|
    ensures Plains(es, i) <= Plains(es, j)
    ensures i < j && es[i].Entrypoint? ==> Plains(es, i) < Plains(es, j)
    decreases j
  {
    if i < j { PlainsGrow(es, i, j - 1); }
  }

  /** Two entries share a slot exactly when they are the same command up to alias, and slots are in range. */
  lemma SameSlotIsSameCommand(es: seq<Entrypoint>, i: nat, j: nat)
    requires WellAliased(es) && i < |es| && j < |es|
    ensures DispIndex(es, i) == DispIndex(es, j) <==> Canonical(es, i) == Canonical(es, j)
    ensures DispIndex(es, i) < Plains(es, |es|)
  {
    var a, b := Canonical(es, i), Canonical(es, j);
    PlainsGrow(es, a, |es|);
    if a < b { PlainsGrow(es, a, b); } else { PlainsGrow(es, b, a); }
  }

  /** Slots are numbered in the order of the ordinary entrypoints. */
  lemma SlotsInOrder(es: seq<Entrypoint>, i: nat, j: nat)
    requires WellAliased(es) && i < j < |es| && es[i].Entrypoint? && es[j].Entrypoint?
    ensures DispIndex(es, i) < DispIndex(es, j)
  {
    PlainsGrow(es, i, j);
  }

  /** Every slot is somebody's. */
  lemma {:induction false} SlotsAreOnto(es: seq<Entrypoint>, n: nat, d: nat) returns (i: nat)
    requires WellAliased(es) && n <= |es| && d < Plains(es, n)
    ensures i < |es| && es[i].Entrypoint? && DispIndex(es, i) == d
    decreases n
  {
    if d < Plains(es, n - 1) {
      i := SlotsAreOnto(es, n - 1, d);
    } else {
      i := n - 1;
    }
  }

  /** The numbers `main` gives to the entrypoints that are no aliases. */
  ghost predicate Numbered(number: map<Name, nat>, es: seq<Entrypoint>, n: nat)
    requires n <= |es|
  {
    forall j :: 0 <= j < n && es[j].Entrypoint? ==> es[j].name in number && number[es[j].name] == Plains(es, j)
  }

  lemma NumberOne(number: map<Name, nat>, es: seq<Entrypoint>, n: nat)
    requires WellAliased(es) && n < |es| && Numbered(number, es, n)
    ensures Numbered(if es[n].Entrypoint? then number[es[n].name := Plains(es, n)] else number, es, n + 1)
  {
    hide Index, Plains, WellAliased;
    if es[n].Entrypoint? {
      forall j | 0 <= j < n ensures es[j].name != es[n].name { DistinctNames(es, j, n); }
    }
  }

  /** The numbering loop of `main`. */
  method NumberEntrypoints(es: seq<Entrypoint>) returns (number: map<Name, nat>, slots: nat)
    requires WellAliased(es)
    ensures Numbered(number, es, |es|) && slots == Plains(es, |es|)
  {
    number := map[];
    slots := 0;
    for i := 0 to |es|
      invariant slots == Plains(es, i) && Numbered(number, es, i)
    {
      NumberOne(number, es, i);
      hide Numbered, WellAliased;
      if es[i].Entrypoint? {
        number := number[es[i].name := slots];
        slots := slots + 1;
      }
    }
  }

  /** The compaction table, entry by entry. */
  method CompactionTable(es: seq<Entrypoint>) returns (comp: seq<nat>, slots: nat)
    requires WellAliased(es)
    ensures |comp| == |es| && slots == Plains(es, |es|)
    ensures forall i :: 0 <= i < |es| ==> comp[i] == DispIndex(es, i)
  {
    hide WellAliased, Index, Plains;
    var number: map<Name, nat>;
    number, slots := NumberEntrypoints(es);
    comp := [];
    for i := 0 to |es|
      invariant |comp| == i
      invariant forall j :: 0 <= j < i ==> comp[j] == DispIndex(es, j)
    {
      OwnerOf(es, i);
      assert es[Canonical(es, i)].Entrypoint?;
      comp := comp + [number[if es[i].Entrypoint? then es[i].name else es[i].target]];
    }
  }

  lemma OwnerOf(es: seq<Entrypoint>, i: nat)
    requires WellAliased(es) && i < |es|
    ensures Canonical(es, i) < |es|
    ensures var owner := es[Canonical(es, i)];
            owner.Entrypoint? && owner.name == if es[i].Entrypoint? then es[i].name else es[i].target
  {
  }

  // ------------------------------------------------------------------ filling a dispatch table

  /** A function pointer; 0 is NULL. */
  type Ptr = nat

  const NULL: Ptr := 0

  /** The first non-NULL among the first `n` entries that go to slot `d`. */
  function FirstEntry(comp: seq<nat>, entry: seq<Ptr>, d: nat, n: nat): Ptr
    requires |comp| == |entry| && n <= |comp|
  {
    if n == 0 then NULL
    else
      var p := FirstEntry(comp, entry, d, n - 1);
      if p != NULL then p else if comp[n - 1] == d then entry[n - 1] else NULL
  }

  /** The last non-NULL among the first `n` entries that go to slot `d`. */
  function LastEntry(comp: seq<nat>, entry: seq<Ptr>, d: nat, n: nat): Ptr
    requires |comp| == |entry| && n <= |comp|
  {
    if n == 0 then NULL
    else if comp[n - 1] == d && entry[n - 1] != NULL then entry[n - 1]
    else LastEntry(comp, entry, d, n - 1)
  }

  /** No two entries of an entrypoint table want the same slot, as the C code asserts. */
  ghost predicate NoConflict(comp: seq<nat>, entry: seq<Ptr>)
    requires |comp| == |entry|
  {
    forall i, j :: 0 <= i < j < |comp| && entry[i] != NULL && entry[j] != NULL ==> comp[i] != comp[j]
  }

  lemma {:induction false} LastIsFirst(comp: seq<nat>, entry: seq<Ptr>, d: nat, n: nat)
    requires |comp| == |entry| && n <= |comp| && NoConflict(comp, entry)
    ensures LastEntry(comp, entry, d, n) == FirstEntry(comp, entry, d, n)
  {
    if n > 0 {
      LastIsFirst(comp, entry, d, n - 1);
      FirstEntryExists(comp, entry, d, n - 1);
    }
  }

  lemma {:induction false} FirstEntryExists(comp: seq<nat>, entry: seq<Ptr>, d: nat, n: nat)
    requires |comp| == |entry| && n <= |comp|
    ensures FirstEntry(comp, entry, d, n) != NULL <==> exists i :: 0 <= i < n && comp[i] == d && entry[i] != NULL
    ensures FirstEntry(comp, entry, d, n) != NULL ==>
              exists i :: 0 <= i < n && comp[i] == d && entry[i] == FirstEntry(comp, entry, d, n)
                          && forall j :: 0 <= j < i && comp[j] == d ==> entry[j] == NULL
  {
    if n > 0 {
      FirstEntryExists(comp, entry, d, n - 1);
      if FirstEntry(comp, entry, d, n - 1) == NULL && comp[n - 1] == d {
        assert forall j :: 0 <= j < n - 1 && comp[j] == d ==> entry[j] == NULL;
        assert 0 <= n - 1 < n && comp[n - 1] == d;
      }
    }
  }

  /** Of several entries for a slot the last one is taken. */
  lemma {:induction false} LastEntryExists(comp: seq<nat>, entry: seq<Ptr>, d: nat, n: nat)
    requires |comp| == |entry| && n <= |comp|
    ensures LastEntry(comp, entry, d, n) != NULL <==> exists i :: 0 <= i < n && comp[i] == d && entry[i] != NULL
    ensures LastEntry(comp, entry, d, n) != NULL ==>
              exists i :: 0 <= i < n && comp[i] == d && entry[i] == LastEntry(comp, entry, d, n)
                          && forall j :: i < j < n && comp[j] == d ==> entry[j] == NULL
  {
    if n > 0 {
      LastEntryExists(comp, entry, d, n - 1);
      if comp[n - 1] == d && entry[n - 1] != NULL {
        assert 0 <= n - 1 < n && comp[n - 1] == d;
      }
    }
  }

  /** What one fill leaves in slot `d` that held `p`. */
  function Filled(comp: seq<nat>, entry: seq<Ptr>, overwrite: bool, p: Ptr, d: nat): Ptr
    requires |comp| == |entry|
  {
    if overwrite then LastEntry(comp, entry, d, |comp|)
    else if p != NULL then p else FirstEntry(comp, entry, d, |comp|)
  }

  /** `vk_*_dispatch_table_from_entrypoints`; its assertion, which aborts on a conflict, is not modelled. */
  method FromEntrypoints(disp: array<Ptr>, comp: seq<nat>, entry: seq<Ptr>, overwrite: bool)
    requires |comp| == |entry| && forall d <- comp :: d < disp.Length
    modifies disp
    ensures forall d :: 0 <= d < disp.Length ==> disp[d] == Filled(comp, entry, overwrite, old(disp[d]), d)
    ensures overwrite && NoConflict(comp, entry) ==>
              forall d :: 0 <= d < disp.Length ==> disp[d] == FirstEntry(comp, entry, d, |comp|)
  {
    if overwrite {
      for d := 0 to disp.Length
        invariant forall c :: 0 <= c < d ==> disp[c] == NULL
      {
        disp[d] := NULL;
      }
      for i := 0 to |comp|
        invariant forall d :: 0 <= d < disp.Length ==> disp[d] == LastEntry(comp, entry, d, i)
      {
        if entry[i] == NULL {
          continue;
        }
        assert comp[i] in comp;
        disp[comp[i]] := entry[i];
      }
      if NoConflict(comp, entry) {
        forall d: nat { LastIsFirst(comp, entry, d, |comp|); }
      }
    } else {
      ghost var before := disp[..];
      for i := 0 to |comp|
        invariant forall d :: 0 <= d < disp.Length ==>
                    disp[d] == if before[d] != NULL then before[d] else FirstEntry(comp, entry, d, i)
      {
        assert comp[i] in comp;
        if disp[comp[i]] == NULL {
          disp[comp[i]] := entry[i];
        }
      }
    }
  }

  // ------------------------------------------------------------------ layers and lookup

  /** One fill: from which table, and whether it overwrites. */
  datatype Layer = Layer(entry: seq<Ptr>, overwrite: bool)

  predicate LayersOf(comp: seq<nat>, layers: seq<Layer>) {
    forall i :: 0 <= i < |layers| ==> |layers[i].entry| == |comp|
  }

  /** What slot `d` holds after filling from `layers` in turn, when it held `start`. */
  function Layered(comp: seq<nat>, layers: seq<Layer>, start: Ptr, d: nat): Ptr
    requires LayersOf(comp, layers)
  {
    if layers == [] then start
    else
      var l := layers[|layers| - 1];
      Filled(comp, l.entry, l.overwrite, Layered(comp, layers[..|layers| - 1], start, d), d)
  }

  /** Any sequence of fills of any table. */
  method FillLayers(disp: array<Ptr>, comp: seq<nat>, layers: seq<Layer>)
    requires LayersOf(comp, layers) && forall d <- comp :: d < disp.Length
    modifies disp
    ensures forall d :: 0 <= d < disp.Length ==> disp[d] == Layered(comp, layers, old(disp[d]), d)
  {
    hide Filled, NoConflict;
    for k := 0 to |layers|
      invariant forall d :: 0 <= d < disp.Length ==> disp[d] == Layered(comp, layers[..k], old(disp[d]), d)
    {
      assert layers[..k + 1][..k] == layers[..k];
      FromEntrypoints(disp, comp, layers[k].entry, layers[k].overwrite);
    }
    assert layers[..|layers|] == layers;
  }

  /** Nothing overwrites from layer `o` on; slot `d` is NULL before it, or `o` itself overwrites. */
  predicate ClearAt(comp: seq<nat>, layers: seq<Layer>, start: Ptr, o: nat) {
    && o < |layers|
    && (forall j :: o < j < |layers| ==> !layers[j].overwrite)
    && (layers[o].overwrite || (o == 0 && start == NULL))
  }

  /** Since the last fill that overwrites, the first layer with an entry for the slot wins: it holds the
      first non-NULL entry of its commands in that layer. */
  lemma {:induction false} FirstLayerWins(comp: seq<nat>, layers: seq<Layer>, start: Ptr, d: nat, o: nat, k: nat)
    requires LayersOf(comp, layers) && ClearAt(comp, layers, start, o) && o <= k < |layers|
    requires NoConflict(comp, layers[o].entry)
    requires forall j :: o <= j < k ==> FirstEntry(comp, layers[j].entry, d, |comp|) == NULL
    requires FirstEntry(comp, layers[k].entry, d, |comp|) != NULL
    ensures Layered(comp, layers, start, d) == FirstEntry(comp, layers[k].entry, d, |comp|)
    decreases |layers|
  {
    hide NoConflict;
    LastIsFirst(comp, layers[o].entry, d, |comp|);
    var init := layers[..|layers| - 1];
    assert forall j :: 0 <= j < |init| ==> init[j] == layers[j];
    if k < |layers| - 1 {
      FirstLayerWins(comp, init, start, d, o, k);
    } else if o < k {
      NothingYet(comp, init, start, d, o);
    }
  }

  /** Without any entry for the slot since then, it is NULL. */
  lemma {:induction false} NothingYet(comp: seq<nat>, layers: seq<Layer>, start: Ptr, d: nat, o: nat)
    requires LayersOf(comp, layers) && ClearAt(comp, layers, start, o)
    requires NoConflict(comp, layers[o].entry)
    requires forall j :: o <= j < |layers| ==> FirstEntry(comp, layers[j].entry, d, |comp|) == NULL
    ensures Layered(comp, layers, start, d) == NULL
    decreases |layers|
  {
    hide NoConflict;
    LastIsFirst(comp, layers[o].entry, d, |comp|);
    var init := layers[..|layers| - 1];
    assert forall j :: 0 <= j < |init| ==> init[j] == layers[j];
    if o < |layers| - 1 { NothingYet(comp, init, start, d, o); }
  }

  /** A slot that is not NULL keeps its entry as long as nothing overwrites. */
  lemma {:induction false} SlotIsKept(comp: seq<nat>, layers: seq<Layer>, start: Ptr, d: nat)
    requires LayersOf(comp, layers) && start != NULL && forall l <- layers :: !l.overwrite
    ensures Layered(comp, layers, start, d) == start
    decreases |layers|
  {
    if layers != [] {
      assert layers[|layers| - 1] in layers && forall l <- layers[..|layers| - 1] :: l in layers;
      SlotIsKept(comp, layers[..|layers| - 1], start, d);
    }
  }

  /** The first `n` names with their positions, and nothing else. */
  ghost predicate NumbersUpTo(dict: map<Name, int>, es: seq<Entrypoint>, n: nat)
    requires n <= |es|
  {
    && (forall i :: 0 <= i < n ==> es[i].name in dict && dict[es[i].name] == i)
    && (forall s <- dict :: 0 <= dict[s] < n && es[dict[s]].name == s)
  }

  /** The dictionary `main` puts into the string map: names to positions. */
  ghost predicate NumbersOf(dict: map<Name, int>, es: seq<Entrypoint>) {
    NumbersUpTo(dict, es, |es|)
  }

  lemma NextNumber(dict: map<Name, int>, es: seq<Entrypoint>, n: nat)
    requires WellAliased(es) && n < |es| && NumbersUpTo(dict, es, n)
    ensures es[n].name !in dict && NumbersUpTo(dict[es[n].name := n], es, n + 1)
  {
    hide Index, WellAliased;
    forall i | 0 <= i < n ensures es[i].name != es[n].name { DistinctNames(es, i, n); }
  }

  /** The loop of `main` that numbers the entrypoints of one list and adds them to a string map. */
  method FillStringMap(es: seq<Entrypoint>) returns (strmap: StringIntMap)
    requires WellAliased(es) && |es| < 0x8000_0000
    ensures fresh(strmap) && strmap.Valid() && NumbersOf(strmap.Dict(), es)
    ensures forall n :: n in strmap.strings <==> Index(es, n) < |es|
  {
    hide Index, WellAliased, NumbersUpTo, EntriesOk, Numbers;
    strmap := new StringIntMap();
    NoNumbers(es);
    for i := 0 to |es|
      invariant fresh(strmap) && strmap.Valid() && NumbersUpTo(strmap.Dict(), es, i)
    {
      NextNumber(strmap.Dict(), es, i);
      NumberOf(strmap.strings, es[i].name);
      strmap.AddString(es[i].name, i);
    }
    forall n ensures n in strmap.strings <==> Index(es, n) < |es| {
      NumberOf(strmap.strings, n);
      NumberIsIndex(strmap.Dict(), es, n);
    }
  }

  lemma NoNumbers(es: seq<Entrypoint>)
    ensures NumbersUpTo(map[], es, 0)
  {
  }

  lemma NumberIsIndex(dict: map<Name, int>, es: seq<Entrypoint>, n: Name)
    requires WellAliased(es) && NumbersOf(dict, es)
    ensures n in dict <==> Index(es, n) < |es|
    ensures n in dict ==> Index(es, n) == dict[n]
  {
    hide Index;
    if n in dict { IndexIs(es, n, dict[n]); }
  }

  /** Everything the generator prints for one list: the string map and the compaction table. */
  method GenerateTables(es: seq<Entrypoint>, order: seq<Name>)
    returns (t: CTables, comp: seq<nat>, slots: nat, ghost dict: map<Name, int>, ghost names: seq<Entry>, ghost m: seq<int>)
    requires WellAliased(es) && 0 < |es| < 0x1_0000
    requires Distinct(order) && |order| == |es| && |Blob(order)| + 1 < U32
    requires forall n :: n in order <==> Index(es, n) < |es|
    ensures TablesOf(t, dict, names, m) && NumbersOf(dict, es)
    ensures |comp| == |es| && forall i :: 0 <= i < |es| ==> comp[i] == DispIndex(es, i) < slots
  {
    hide TablesOf, Blob, WellAliased, NumbersOf;
    var strmap := FillStringMap(es);
    dict := strmap.Dict();
    SomeName(es, order);
    t, names, m := Generate(strmap, order);
    comp, slots := CompactionTable(es);
    forall i | 0 <= i < |es| ensures DispIndex(es, i) < slots {
      SameSlotIsSameCommand(es, i, i);
    }
  }

  lemma SomeName(es: seq<Entrypoint>, order: seq<Name>)
    requires es != [] && forall n :: n in order <==> Index(es, n) < |es|
    ensures order != [] && order[0] in order
  {
    IndexIs(es, es[0].name, 0);
  }

  /** `vk_*_dispatch_table_get`, down to the probe in the generated table. */
  method DispatchTableGet(disp: array<Ptr>, comp: seq<nat>, t: CTables, str: seq<int>,
                          ghost dict: map<Name, int>, ghost names: seq<Entry>, ghost m: seq<int>,
                          ghost es: seq<Entrypoint>)
    returns (p: Ptr)
    requires TablesOf(t, dict, names, m) && NumbersOf(dict, es) && WellAliased(es)
    requires |comp| == |es| && forall i :: 0 <= i < |es| ==> comp[i] == DispIndex(es, i) < disp.Length
    requires forall c <- str :: -128 <= c < 128 && c != 0
    ensures str !in dict ==> p == NULL
    ensures str in dict ==> p == disp[DispIndex(es, Index(es, str))]
    ensures str in dict && es[Index(es, str)].EntrypointAlias? ==>
              var target := es[Index(es, str)].target;
              target in dict && p == disp[DispIndex(es, Index(es, target))]
  {
    hide TablesOf;
    var index := Lookup(t, str, dict, names, m);
    if str in dict { NumberIsIndex(dict, es, str); }
    if index < 0 {
      return NULL;
    }
    return disp[comp[index]];
  }
}
