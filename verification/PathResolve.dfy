/** What a path means: the directory one reaches by walking along its elements. */
module PathResolve {
  import opened PathText

  /** `ups` parents above the start (0 for an absolute path), then down through `names`. */
  datatype Dir = Dir(abs: bool, ups: nat, names: seq<string>)

  const START := Dir(false, 0, [])

  /** One element: the root, nothing, one up, or one down. */
  function Walk(d: Dir, e: string): Dir {
    if e == [SEP] then Dir(true, 0, [])
    else if e == "" || e == "." then d
    else if e == ".." then
      if d.names != [] then d.(names := d.names[..|d.names| - 1])
      else if d.abs then d
      else d.(ups := d.ups + 1)
    else d.(names := d.names + [e])
  }

  function WalkAll(d: Dir, es: seq<string>): Dir {
    if es == [] then d else Walk(WalkAll(d, es[..|es| - 1]), es[|es| - 1])
  }

  function Resolve(es: seq<string>): Dir {
    WalkAll(START, es)
  }

  lemma WalkMore(d: Dir, es: seq<string>, e: string)
    ensures WalkAll(d, es + [e]) == Walk(WalkAll(d, es), e)
  {
    hide Walk;
    assert (es + [e])[..|es|] == es;
  }

  lemma WalkNothing(d: Dir)
    ensures WalkAll(d, []) == d
  {
  }

  lemma WalkRoot(d: Dir)
    ensures Walk(d, [SEP]) == Dir(true, 0, [])
  {
  }

  lemma WalkDown(d: Dir, e: string)
    requires e !in ["", ".", "..", [SEP]]
    ensures Walk(d, e) == d.(names := d.names + [e])
  {
  }

  lemma WalkUp(d: Dir)
    requires d.names != []
    ensures Walk(d, "..") == d.(names := d.names[..|d.names| - 1])
  {
  }

  lemma {:induction false} WalkConcat(d: Dir, es: seq<string>, fs: seq<string>)
    ensures WalkAll(d, es + fs) == WalkAll(WalkAll(d, es), fs)
    decreases |fs|
  {
    var all := es + fs;
    if fs == [] {
      assert all == es;
    } else {
      assert all[..|all| - 1] == es + fs[..|fs| - 1];
      WalkConcat(d, es, fs[..|fs| - 1]);
    }
  }

  /** Names only go down. */
  lemma {:induction false} WalkNames(d: Dir, es: seq<string>)
    requires forall e <- es :: e !in ["", ".", "..", [SEP]]
    ensures WalkAll(d, es) == d.(names := d.names + es)
    decreases |es|
  {
    if es != [] {
      var last := es[|es| - 1];
      assert last in es;
      WalkNames(d, es[..|es| - 1]);
      assert d.names + es[..|es| - 1] + [last] == d.names + es;
    } else {
      assert d.names + es == d.names;
    }
  }

  /** `n` times `..`. */
  function Ups(n: nat): (r: seq<string>)
    ensures |r| == n && forall e <- r :: e == ".."
  {
    if n == 0 then [] else Ups(n - 1) + [".."]
  }
}
