/** The static string map: baked by bin/vk_dispatch_table_gen.py, probed by the C code it writes. */
module StringMap {
  import opened Probing

  const PRIME_FACTOR := 5024183
  const NONE := 0xffff

  /** A NUL-free ASCII string. */
  type Name = s: seq<int> | forall c <- s :: 0 < c < 128

  /** The hash of a string of (possibly negative) characters, wrapped at 32 bits after every character. */
  function Hash(s: seq<int>): (h: nat)
    ensures h < U32
  {
    if s == [] then 0 else (Hash(s[..|s| - 1]) * PRIME_FACTOR + s[|s| - 1]) % U32
  }

  function Power(b: int, e: nat): int {
    if e == 0 then 1 else b * Power(b, e - 1)
  }

  /** The characters as the digits of a number to the base of the prime factor, without any wrap. */
  function PowerSum(s: seq<int>): int {
    if s == [] then 0 else s[0] * Power(PRIME_FACTOR, |s| - 1) + PowerSum(s[1..])
  }

  lemma {:induction false} PowerSumLast(s: seq<int>, c: int)
    ensures PowerSum(s + [c]) == PRIME_FACTOR * PowerSum(s) + c
    decreases |s|
  {
    if s == [] {
      assert [] + [c] == [c];
      assert [c][1..] == [];
      assert Power(PRIME_FACTOR, 0) == 1;
    } else {
      assert (s + [c])[1..] == s[1..] + [c];
      PowerSumLast(s[1..], c);
      assert Power(PRIME_FACTOR, |s|) == PRIME_FACTOR * Power(PRIME_FACTOR, |s| - 1);
      Associate(s[0], PRIME_FACTOR, Power(PRIME_FACTOR, |s| - 1));
      Associate(PRIME_FACTOR, s[0], Power(PRIME_FACTOR, |s| - 1));
    }
  }

  /** Wrapping after every character is wrapping once at the end. */
  lemma {:induction false} HashIsPowerSum(s: seq<int>)
    ensures Hash(s) == PowerSum(s) % U32
    decreases |s|
  {
    if s != [] {
      var init, c := s[..|s| - 1], s[|s| - 1];
      assert s == init + [c];
      HashIsPowerSum(init);
      PowerSumLast(init, c);
      hide PowerSum;
      WrapInside(PowerSum(init), PRIME_FACTOR, c);
    }
  }

  lemma WrapInside(a: int, f: int, c: int)
    ensures ((a % U32) * f + c) % U32 == (f * a + c) % U32
  {
    var q := a / U32;
    assert a == U32 * q + a % U32;
    Distribute(f, U32 * q, a % U32);
    Associate(f, U32, q);
    Associate(U32, f, q);
    Associate(a % U32, f, 1);
    ModShift((a % U32) * f + c, f * q, U32);
  }

  /** `StringIntMapEntry`. */
  datatype Entry = Entry(str: Name, num: int, hash: nat, offset: nat)

  /** The constructor of `StringIntMapEntry`. */
  method MakeEntry(str: Name, num: int) returns (e: Entry)
    ensures e == Entry(str, num, Hash(str), 0)
  {
    var h := 0;
    for i := 0 to |str|
      invariant h == Hash(str[..i])
    {
      h := (h * PRIME_FACTOR + str[i]) % U32;
      assert str[..i + 1][..i] == str[..i];
    }
    assert str[..|str|] == str;
    e := Entry(str, num, h, 0);
  }

  /** `round_to_pow2(n * 1.25)` as the exponent. */
  function TableBits(n: nat, k: nat): (bits: nat)
    requires n > 0 && (k > 0 ==> 4 * Pow2(k - 1) < 5 * n)
    ensures 4 * Pow2(bits) >= 5 * n
    ensures bits > 0 ==> 4 * Pow2(bits - 1) < 5 * n
    decreases 5 * n - Pow2(k)
  {
    if 4 * Pow2(k) >= 5 * n then k else TableBits(n, k + 1)
  }

  // ------------------------------------------------------------------ the big string

  /** All names, each with its terminating NUL. */
  function Blob(names: seq<Name>): seq<int> {
    if names == [] then [] else Blob(names[..|names| - 1]) + names[|names| - 1] + [0]
  }

  lemma BlobGrows(names: seq<Name>, i: nat)
    requires i < |names|
    ensures Blob(names[..i + 1]) == Blob(names[..i]) + names[i] + [0]
  {
    assert names[..i + 1][..i] == names[..i];
  }

  /** What a C string function sees at an offset. */
  function CStringAt(blob: seq<int>, offset: nat): seq<int>
    decreases |blob| - offset
  {
    if offset >= |blob| || blob[offset] == 0 then [] else [blob[offset]] + CStringAt(blob, offset + 1)
  }

  lemma {:induction false} CStringIs(blob: seq<int>, offset: nat, s: seq<int>)
    requires offset + |s| < |blob| && blob[offset..offset + |s|] == s && blob[offset + |s|] == 0 && 0 !in s
    ensures CStringAt(blob, offset) == s
    decreases |s|
  {
    if s != [] {
      assert blob[offset] == s[0];
      assert blob[offset + 1..offset + 1 + |s[1..]|] == s[1..];
      CStringIs(blob, offset + 1, s[1..]);
    }
  }

  lemma {:induction false} BlobPrefix(names: seq<Name>, i: nat)
    requires i <= |names|
    ensures Blob(names[..i]) <= Blob(names)
    decreases |names|
  {
    if i < |names| {
      BlobPrefix(names[..|names| - 1], i);
      assert names[..|names| - 1][..i] == names[..i];
    } else {
      assert names[..i] == names;
    }
  }

  /** Each name is read back from where the names before it end. */
  lemma BlobRead(names: seq<Name>, i: nat, tail: seq<int>)
    requires i < |names|
    ensures CStringAt(Blob(names) + tail, |Blob(names[..i])|) == names[i]
  {
    var start := |Blob(names[..i])|;
    BlobPrefix(names, i + 1);
    var part := Blob(names[..i + 1]);
    BlobGrows(names, i);
    var blob := Blob(names) + tail;
    assert part <= blob;
    assert blob[start..start + |names[i]|] == part[start..start + |names[i]|] == names[i];
    assert blob[start + |names[i]|] == part[start + |names[i]|] == 0;
    CStringIs(blob, start, names[i]);
  }

  // ------------------------------------------------------------------ a well-built table

  /** Key `i` is in the slot of round `level`, and every slot before it on its path is taken. */
  ghost predicate Placed(m: seq<int>, h: int, k: nat, i: int, level: nat)
    requires |m| == Pow2(k)
  {
    m[Slot(h, level, k)] == i && forall j :: 0 <= j < level ==> m[Slot(h, j, k)] >= 0
  }

  /** Key `i` can be found. */
  ghost predicate Findable(m: seq<int>, h: int, k: nat, i: int)
    requires |m| == Pow2(k)
  {
    exists level: nat :: Placed(m, h, k, i, level)
  }

  /** The table holds exactly the keys below `n`, each once, and each can be found. */
  ghost predicate Holds(m: seq<int>, hashes: seq<int>, k: nat) {
    && |m| == Pow2(k)
    && (forall s :: 0 <= s < |m| ==> -1 <= m[s] < |hashes|)
    && (forall s, t :: 0 <= s < t < |m| && m[s] >= 0 ==> m[s] != m[t])
    && (forall i :: 0 <= i < |hashes| ==> Findable(m, hashes[i], k, i))
  }

  lemma HasEmptySlot(m: seq<int>, hashes: seq<int>, k: nat) returns (slot: nat)
    requires Holds(m, hashes, k) && |hashes| < Pow2(k)
    ensures slot < Pow2(k) && m[slot] == -1
  {
    if forall s :: 0 <= s < |m| ==> m[s] != -1 {
      assert Distinct(m);
      DistinctCount(m, |hashes|);
      assert false;
    }
    slot :| 0 <= slot < |m| && m[slot] == -1;
  }

  lemma EmptyTableHolds(m: seq<int>, k: nat)
    requires |m| == Pow2(k) && forall v <- m :: v == -1
    ensures Holds(m, [], k)
  {
    assert forall s :: 0 <= s < |m| ==> m[s] in m;
  }

  lemma StaysFindable(m: seq<int>, slot: nat, v: nat, h: int, k: nat, i: nat)
    requires |m| == Pow2(k) && slot < |m| && m[slot] == -1 && Findable(m, h, k, i)
    ensures Findable(m[slot := v], h, k, i)
  {
    hide Slot;
    var level: nat :| Placed(m, h, k, i, level);
    assert Placed(m[slot := v], h, k, i, level);
  }

  /** Filling the first empty slot of its path adds a key and keeps every other key findable. */
  lemma InsertKeepsHolds(m: seq<int>, hashes: seq<int>, k: nat, h: int, level: nat)
    requires Holds(m, hashes, k)
    requires m[Slot(h, level, k)] == -1
    requires forall j :: 0 <= j < level ==> m[Slot(h, j, k)] >= 0
    ensures Holds(m[Slot(h, level, k) := |hashes|], hashes + [h], k)
  {
    hide Slot, Pow2, Findable;
    var slot := Slot(h, level, k);
    var m' := m[slot := |hashes|];
    var hashes' := hashes + [h];
    forall i | 0 <= i < |hashes'| ensures Findable(m', hashes'[i], k, i) {
      if i < |hashes| {
        assert hashes'[i] == hashes[i];
        StaysFindable(m, slot, |hashes|, hashes[i], k, i);
      } else {
        LastIsFindable(m, h, k, |hashes|, level);
      }
    }
  }

  lemma LastIsFindable(m: seq<int>, h: int, k: nat, i: nat, level: nat)
    requires |m| == Pow2(k) && m[Slot(h, level, k)] == -1
    requires forall j :: 0 <= j < level ==> m[Slot(h, j, k)] >= 0
    ensures Findable(m[Slot(h, level, k) := i], h, k, i)
  {
    hide Slot;
    assert Placed(m[Slot(h, level, k) := i], h, k, i, level);
  }

  function Sum(s: seq<nat>): nat {
    if s == [] then 0 else s[0] + Sum(s[1..])
  }

  lemma {:induction false} SumOfUpdate(s: seq<nat>, i: nat)
    requires i < |s|
    ensures Sum(s[i := s[i] + 1]) == Sum(s) + 1
    decreases |s|
  {
    var t := s[i := s[i] + 1];
    if i == 0 {
      assert t[1..] == s[1..];
    } else {
      SumOfUpdate(s[1..], i - 1);
      assert t[1..] == s[1..][i - 1 := s[1..][i - 1] + 1];
    }
  }

  lemma {:induction false} SumOfZeros(s: seq<nat>)
    requires forall v <- s :: v == 0
    ensures Sum(s) == 0
  {
    if s != [] {
      assert s[0] in s;
      assert forall v <- s[1..] :: v in s;
      SumOfZeros(s[1..]);
    }
  }

  // ------------------------------------------------------------------ the collision statistics

  /** Key `i` is found in round `level` and not before, and no empty slot comes before it. */
  ghost predicate FoundIn(m: seq<int>, h: int, k: nat, i: int, level: nat)
    requires |m| == Pow2(k)
  {
    m[Slot(h, level, k)] == i && forall j :: 0 <= j < level ==> m[Slot(h, j, k)] >= 0 && m[Slot(h, j, k)] != i
  }

  /** In which round each key is found. */
  ghost predicate Rounds(m: seq<int>, hashes: seq<int>, k: nat, levels: seq<nat>) {
    && |m| == Pow2(k) && |levels| == |hashes|
    && forall i :: 0 <= i < |levels| ==> FoundIn(m, hashes[i], k, i, levels[i])
  }

  /** The last of the ten buckets has all later rounds. */
  function Bucket(level: nat): (b: nat)
    ensures b <= level && b <= 9 && (b == level || b == 9)
  {
    if level < 9 then level else 9
  }

  /** How many of the rounds go to bucket `b`. */
  function CountIn(levels: seq<nat>, b: nat): nat {
    if levels == [] then 0
    else CountIn(levels[..|levels| - 1], b) + if Bucket(levels[|levels| - 1]) == b then 1 else 0
  }

  ghost predicate Counted(c: seq<nat>, levels: seq<nat>) {
    |c| == 10 && forall b :: 0 <= b < 10 ==> c[b] == CountIn(levels, b)
  }

  lemma CountMore(c: seq<nat>, levels: seq<nat>, level: nat)
    requires Counted(c, levels)
    ensures Counted(c[Bucket(level) := c[Bucket(level)] + 1], levels + [level])
  {
    assert (levels + [level])[..|levels|] == levels;
  }

  lemma CountNone(c: seq<nat>)
    requires |c| == 10 && forall b :: 0 <= b < 10 ==> c[b] == 0
    ensures Counted(c, [])
  {
  }

  /** A key that is put into the first empty slot of its path is found there; the others as before. */
  lemma RoundsGrow(m: seq<int>, hashes: seq<int>, k: nat, levels: seq<nat>, h: int, level: nat)
    requires Rounds(m, hashes, k, levels) && Holds(m, hashes, k)
    requires m[Slot(h, level, k)] == -1
    requires forall j :: 0 <= j < level ==> m[Slot(h, j, k)] >= 0
    ensures Rounds(m[Slot(h, level, k) := |hashes|], hashes + [h], k, levels + [level])
  {
    hide Slot, Pow2, Findable;
    var slot, n := Slot(h, level, k), |hashes|;
    forall i | 0 <= i <= n ensures FoundIn(m[slot := n], (hashes + [h])[i], k, i, (levels + [level])[i]) {
      if i < n {
        assert FoundIn(m, hashes[i], k, i, levels[i]);
        StaysFound(m, slot, n, hashes[i], k, i, levels[i]);
      }
    }
  }

  lemma StaysFound(m: seq<int>, slot: nat, n: nat, h: int, k: nat, i: nat, level: nat)
    requires |m| == Pow2(k) && slot < |m| && m[slot] == -1 && i < n && FoundIn(m, h, k, i, level)
    ensures FoundIn(m[slot := n], h, k, i, level)
  {
    hide Slot, Pow2;
  }

  lemma NoRounds(m: seq<int>, k: nat)
    requires |m| == Pow2(k)
    ensures Rounds(m, [], k, [])
  {
  }

  function Hashes(es: seq<Entry>): (r: seq<int>)
    ensures |r| == |es|
    ensures forall i :: 0 <= i < |es| ==> r[i] == es[i].hash
  {
    if es == [] then [] else Hashes(es[..|es| - 1]) + [es[|es| - 1].hash]
  }

  function Names(es: seq<Entry>): (r: seq<Name>)
    ensures |r| == |es|
    ensures forall i :: 0 <= i < |es| ==> r[i] == es[i].str
  {
    if es == [] then [] else Names(es[..|es| - 1]) + [es[|es| - 1].str]
  }

  /** Every entry has a name of the dictionary and its number. */
  predicate FromDict(dict: map<Name, int>, es: seq<Entry>) {
    forall i :: 0 <= i < |es| ==> es[i].str in dict && es[i].num == dict[es[i].str]
  }

  /** Every name of the dictionary has an entry. */
  ghost predicate Covers(dict: map<Name, int>, es: seq<Entry>) {
    forall s <- dict :: exists i :: 0 <= i < |es| && es[i].str == s
  }

  predicate Hashed(es: seq<Entry>) {
    forall i :: 0 <= i < |es| ==> es[i].hash == Hash(es[i].str)
  }

  /** Every name starts where the names before it end. */
  predicate Laid(es: seq<Entry>) {
    forall i :: 0 <= i < |es| ==> es[i].offset == |Blob(Names(es)[..i])|
  }

  /** What `bake` leaves behind for the dictionary `dict`. */
  ghost predicate Baked(dict: map<Name, int>, es: seq<Entry>, m: seq<int>, k: nat) {
    && |es| < Pow2(k)
    && FromDict(dict, es)
    && Covers(dict, es)
    && Hashed(es)
    && Laid(es)
    && Holds(m, Hashes(es), k)
  }

  /** Entry `i` in sorted order, with its offset. */
  function EntryAt(strings: map<Name, Entry>, order: seq<Name>, i: nat): Entry
    requires i < |order| && order[i] in strings
  {
    strings[order[i]].(offset := |Blob(order[..i])|)
  }

  lemma StartOfBlob(order: seq<Name>)
    ensures |Blob(order[..0])| == 0
  {
  }

  /** The Python class. `sorted` is a builtin: the order it produces comes in as a parameter. */
  class StringIntMap {
    var strings: map<Name, Entry>
    var sortedStrings: seq<Entry>
    var hashBits: nat
    var mapping: array<int>
    var collisions: array<nat>

    ghost predicate Valid()
      reads this
    {
      EntriesOk(strings) && forall s <- strings :: 0 <= strings[s].num < 0x8000_0000
    }

    ghost function Dict(): map<Name, int>
      reads this
    {
      Numbers(strings)
    }

    constructor ()
      ensures Valid() && strings == map[] && Dict() == map[]
    {
      strings, sortedStrings, hashBits := map[], [], 0;
      mapping := new int[0];
      collisions := new nat[0];
    }

    method AddString(str: Name, num: int)
      requires Valid() && str !in strings && 0 <= num < 0x8000_0000
      modifies this`strings
      ensures Valid() && Dict() == old(Dict())[str := num]
    {
      hide Hash, Numbers, EntriesOk;
      var e := MakeEntry(str, num);
      OneMoreEntry(strings, e);
      strings := strings[str := e];
    }

    /** The first loop of `bake`: each name starts where the names before it end. */
    static method SortedEntries(strings: map<Name, Entry>, order: seq<Name>) returns (es: seq<Entry>)
      requires forall s <- order :: s in strings
      ensures InOrder(strings, order, es)
    {
      es := [];
      var offset := 0;
      StartOfBlob(order);
      hide Blob;
      for i := 0 to |order|
        invariant |es| == i && offset == |Blob(order[..i])|
        invariant forall j :: 0 <= j < i ==> es[j] == EntryAt(strings, order, j)
      {
        assert order[i] in order;
        es := es + [strings[order[i]].(offset := offset)];
        BlobGrows(order, i);
        offset := offset + |order[i]| + 1;
      }
    }

    method Bake(order: seq<Name>)
      requires Valid() && strings != map[]
      requires Distinct(order) && (forall s <- order :: s in strings) && (forall s <- strings :: s in order)
      modifies this`sortedStrings, this`hashBits, this`mapping, this`collisions
      ensures Valid() && fresh(mapping) && fresh(collisions)
      ensures |sortedStrings| == |order| && collisions.Length == 10
      ensures forall i :: 0 <= i < |order| ==> sortedStrings[i].str == order[i]
      ensures Baked(Dict(), sortedStrings, mapping[..], hashBits)
      ensures 4 * Pow2(hashBits) >= 5 * |order| && (hashBits > 0 ==> 4 * Pow2(hashBits - 1) < 5 * |order|)
      ensures exists levels ::
                Rounds(mapping[..], Hashes(sortedStrings), hashBits, levels) && Counted(collisions[..], levels)
      ensures Sum(collisions[..]) == |order|
    {
      hide Holds, Hashes, Blob, Baked, Sum, Hash, EntryAt, Pow2, InOrder, EntriesOk, Names, Numbers, Rounds, Counted;
      var es := SortedEntries(strings, order);
      sortedStrings := es;
      SameLength(strings, order, es);
      EntriesLaid(strings, order, es);
      NonEmptyOrder(order, strings.Keys);
      hashBits := TableBits(|order|, 0);
      var m, c, levels := FillTable(es, hashBits);
      BakedFrom(strings, order, es, m[..], hashBits);
      mapping, collisions := m, c;
    }

    /** The last loop of `bake`. */
    static method FillTable(es: seq<Entry>, k: nat) returns (m: array<int>, c: array<nat>, ghost levels: seq<nat>)
      requires |es| < Pow2(k)
      ensures fresh(m) && fresh(c)
      ensures c.Length == 10 && Sum(c[..]) == |es|
      ensures Holds(m[..], Hashes(es), k)
      ensures Rounds(m[..], Hashes(es), k, levels) && Counted(c[..], levels)
    {
      hide Holds, Hashes, Sum, Pow2, Rounds, Counted, Slot;
      m := new int[Pow2(k)](_ => -1);
      c := new nat[10](_ => 0);
      levels := [];
      SumOfZeros(c[..]);
      CountNone(c[..]);
      EmptyTableHolds(m[..], k);
      NoRounds(m[..], k);
      FirstHashes(es);
      for idx := 0 to |es|
        invariant fresh(m) && fresh(c) && m.Length == Pow2(k)
        invariant Holds(m[..], Hashes(es[..idx]), k)
        invariant Rounds(m[..], Hashes(es[..idx]), k, levels) && Counted(c[..], levels)
        invariant c.Length == 10 && Sum(c[..]) == idx
      {
        ghost var was, counts := m[..], c[..];
        var level := InsertEntry(es[..idx], es[idx].hash, k, m, c);
        HashesGrow(es, idx);
        InsertKeepsHolds(was, Hashes(es[..idx]), k, es[idx].hash, level);
        RoundsGrow(was, Hashes(es[..idx]), k, levels, es[idx].hash, level);
        SumOfUpdate(counts, Bucket(level));
        CountMore(counts, levels, level);
        levels := levels + [level];
      }
    }

    /** One round of the last loop of `bake`: the first empty slot on the path, and its bucket. */
    static method InsertEntry(es: seq<Entry>, hash: nat, k: nat, mapping: array<int>, collisions: array<nat>)
      returns (level: nat)
      requires mapping.Length == Pow2(k) && |es| < Pow2(k) && collisions.Length == 10
      requires Holds(mapping[..], Hashes(es), k)
      modifies mapping, collisions
      ensures old(mapping[..])[Slot(hash, level, k)] == -1
      ensures forall j :: 0 <= j < level ==> old(mapping[..])[Slot(hash, j, k)] >= 0
      ensures mapping[..] == old(mapping[..])[Slot(hash, level, k) := |es|]
      ensures var c := old(collisions[..]); collisions[..] == c[Bucket(level) := c[Bucket(level)] + 1]
    {
      ghost var m := mapping[..];
      ghost var empty := HasEmptySlot(m, Hashes(es), k);
      ghost var turn := ProbeReaches(hash, k, empty);
      hide Holds, Pow2, Hashes;
      level := 0;
      var h := hash;
      while mapping[h % Pow2(k)] >= 0
        invariant h == hash + STEP * level && 0 <= level <= turn
        invariant forall j :: 0 <= j < level ==> m[Slot(hash, j, k)] >= 0
        decreases turn - level
      {
        assert h % Pow2(k) == Slot(hash, level, k);
        h := h + STEP;
        level := level + 1;
      }
      var slot := h % Pow2(k);
      assert slot == Slot(hash, level, k);
      SlotIsEmpty(m, Hashes(es), k, slot);
      var bucket := if level < 9 then level else 9;
      collisions[bucket] := collisions[bucket] + 1;
      mapping[slot] := |es|;
    }
  }

  lemma SlotIsEmpty(m: seq<int>, hashes: seq<int>, k: nat, slot: nat)
    requires Holds(m, hashes, k) && slot < |m|
    ensures m[slot] >= -1
  {
  }

  lemma FirstHashes(es: seq<Entry>)
    ensures Hashes(es[..0]) == [] && es[..|es|] == es
  {
  }

  lemma HashesGrow(es: seq<Entry>, i: nat)
    requires i < |es|
    ensures Hashes(es[..i + 1]) == Hashes(es[..i]) + [es[i].hash]
  {
  }

  /** The entries of a dictionary in the given order, with their offsets. */
  ghost predicate InOrder(strings: map<Name, Entry>, order: seq<Name>, es: seq<Entry>) {
    && |es| == |order|
    && forall i :: 0 <= i < |es| ==> order[i] in strings && es[i] == EntryAt(strings, order, i)
  }

  ghost predicate EntriesOk(strings: map<Name, Entry>) {
    forall s <- strings :: strings[s].str == s && strings[s].hash == Hash(s)
  }

  function Numbers(strings: map<Name, Entry>): map<Name, int> {
    map s <- strings :: strings[s].num
  }

  lemma NumberOf(strings: map<Name, Entry>, s: Name)
    ensures s in Numbers(strings) <==> s in strings
    ensures s in strings ==> Numbers(strings)[s] == strings[s].num
  {
  }

  lemma OneMoreEntry(strings: map<Name, Entry>, e: Entry)
    requires EntriesOk(strings) && e.str !in strings && e.hash == Hash(e.str)
    ensures EntriesOk(strings[e.str := e]) && Numbers(strings[e.str := e]) == Numbers(strings)[e.str := e.num]
  {
    hide Hash;
  }

  lemma EntryIs(strings: map<Name, Entry>, order: seq<Name>, es: seq<Entry>, i: nat)
    requires EntriesOk(strings) && InOrder(strings, order, es) && i < |es|
    ensures order[i] in strings && es[i].str == order[i] && es[i].hash == Hash(order[i])
    ensures es[i].num == strings[order[i]].num && es[i].offset == |Blob(order[..i])|
  {
    hide Hash, Blob;
  }

  lemma EntriesFromDict(strings: map<Name, Entry>, order: seq<Name>, es: seq<Entry>)
    requires EntriesOk(strings) && InOrder(strings, order, es)
    ensures FromDict(Numbers(strings), es) && Hashed(es)
  {
    hide EntriesOk, InOrder, Numbers, Hash;
    forall i | 0 <= i < |es|
      ensures es[i].str in Numbers(strings) && es[i].num == Numbers(strings)[es[i].str] && es[i].hash == Hash(es[i].str)
    {
      EntryIs(strings, order, es, i);
      NumberOf(strings, es[i].str);
    }
  }

  lemma EntriesCover(strings: map<Name, Entry>, order: seq<Name>, es: seq<Entry>)
    requires EntriesOk(strings) && InOrder(strings, order, es) && forall s <- strings :: s in order
    ensures Covers(Numbers(strings), es)
  {
    hide EntriesOk, InOrder, Numbers, Hash;
    forall s | s in Numbers(strings) ensures exists i :: 0 <= i < |es| && es[i].str == s {
      NumberOf(strings, s);
      var i :| 0 <= i < |order| && order[i] == s;
      assert |es| == |order| by { SameLength(strings, order, es); }
      EntryIs(strings, order, es, i);
      assert es[i].str == s;
    }
  }

  lemma SameLength(strings: map<Name, Entry>, order: seq<Name>, es: seq<Entry>)
    requires InOrder(strings, order, es)
    ensures |es| == |order|
  {
  }

  lemma EntriesLaid(strings: map<Name, Entry>, order: seq<Name>, es: seq<Entry>)
    requires EntriesOk(strings) && InOrder(strings, order, es)
    ensures Names(es) == order && Laid(es)
  {
    hide EntriesOk, InOrder, Names, Blob, Hash;
    SameLength(strings, order, es);
    forall i | 0 <= i < |es| ensures es[i].str == order[i] && es[i].offset == |Blob(order[..i])| {
      EntryIs(strings, order, es, i);
    }
    assert Names(es) == order;
  }

  /** The entries in sorted order with their offsets, and any table that holds them, are a baked map. */
  lemma BakedFrom(strings: map<Name, Entry>, order: seq<Name>, es: seq<Entry>, m: seq<int>, k: nat)
    requires EntriesOk(strings) && InOrder(strings, order, es) && forall s <- strings :: s in order
    requires |es| < Pow2(k) && Holds(m, Hashes(es), k)
    ensures Baked(Numbers(strings), es, m, k)
  {
    hide EntriesOk, InOrder, Holds, Pow2, FromDict, Covers, Hashed, Laid, Numbers, Hashes;
    EntriesFromDict(strings, order, es);
    EntriesCover(strings, order, es);
    EntriesLaid(strings, order, es);
  }

  lemma NonEmptyOrder(order: seq<Name>, keys: set<Name>)
    requires keys != {} && forall s <- keys :: s in order
    ensures order != []
  {
  }

  // ------------------------------------------------------------------ the generated C tables

  datatype CEntry = CEntry(name: nat, hash: nat, num: int)

  /** The static data of the generated file; `mask` is one less than a power of two. */
  datatype CTables = CTables(strings: seq<int>, entries: seq<CEntry>, smap: seq<int>, bits: nat)

  function CEntries(es: seq<Entry>): (r: seq<CEntry>)
    ensures |r| == |es|
    ensures forall i :: 0 <= i < |es| ==> r[i] == CEntry(es[i].offset % U32, es[i].hash, es[i].num)
  {
    if es == [] then []
    else
      var e := es[|es| - 1];
      CEntries(es[..|es| - 1]) + [CEntry(e.offset % U32, e.hash, e.num)]
  }

  /** The template `strmap`: the map is printed as 16 bit numbers, an empty slot as `none`. */
  function Emit(es: seq<Entry>, m: seq<int>, k: nat): CTables {
    CTables(Blob(Names(es)) + [0], CEntries(es),
            seq(|m|, i requires 0 <= i < |m| => if m[i] >= 0 then m[i] % 0x1_0000 else NONE), k)
  }

  /** The tables of a map that was baked for `dict`, with fewer names than `none`. */
  ghost predicate TablesOf(t: CTables, dict: map<Name, int>, es: seq<Entry>, m: seq<int>) {
    && Baked(dict, es, m, t.bits)
    && t == Emit(es, m, t.bits)
    && |es| < 0x1_0000
    && |t.strings| < U32
    && t.bits <= 32
  }

  /** Fewer names than 2^16, as the generator asserts, make a table far smaller than 2^32. */
  lemma BitsFitIn32(n: nat, k: nat)
    requires 0 < n < 0x1_0000 && (k > 0 ==> 4 * Pow2(k - 1) < 5 * n)
    ensures k <= 32
  {
    if k > 32 {
      Pow2OfU32();
      Pow2Grows(32, k - 1);
    }
  }

  /** Baking a map and printing it: the C tables stand for its dictionary. */
  method Generate(strmap: StringIntMap, order: seq<Name>)
    returns (t: CTables, ghost es: seq<Entry>, ghost m: seq<int>)
    requires strmap.Valid() && strmap.strings != map[]
    requires Distinct(order)
    requires (forall s <- order :: s in strmap.strings) && (forall s <- strmap.strings :: s in order)
    requires |order| < 0x1_0000 && |Blob(order)| + 1 < U32
    modifies strmap`sortedStrings, strmap`hashBits, strmap`mapping, strmap`collisions
    ensures TablesOf(t, strmap.Dict(), es, m)
  {
    hide Baked, Blob, Pow2, TablesOf, Emit, EntriesOk, Numbers, Names, Sum, Rounds, Counted, Hashes;
    strmap.Bake(order);
    NonEmptyOrder(order, strmap.strings.Keys);
    BitsFitIn32(|order|, strmap.hashBits);
    es, m := strmap.sortedStrings, strmap.mapping[..];
    t := Emit(strmap.sortedStrings, strmap.mapping[..], strmap.hashBits);
    assert Names(es) == order;
    EmitIsTables(strmap.Dict(), es, m, strmap.hashBits);
  }

  lemma EmitIsTables(dict: map<Name, int>, es: seq<Entry>, m: seq<int>, k: nat)
    requires Baked(dict, es, m, k) && |es| < 0x1_0000 && |Blob(Names(es))| + 1 < U32 && k <= 32
    ensures TablesOf(Emit(es, m, k), dict, es, m)
  {
    hide Baked, Blob, Names, CEntries;
  }

  /** 32 bit arithmetic in C: the product and the sum both wrap, and a negative char is converted. */
  function CHashStep(hash: nat, c: int): nat {
    ((hash * PRIME_FACTOR) % U32 + c % U32) % U32
  }

  lemma WrapSum(a: int, b: int)
    ensures (a % U32 + b % U32) % U32 == (a + b) % U32
  {
  }

  /** The C hash of a string. */
  method CHash(str: seq<int>) returns (hash: nat)
    ensures hash == Hash(str)
  {
    hash := 0;
    for i := 0 to |str|
      invariant hash == Hash(str[..i])
    {
      WrapSum(hash * PRIME_FACTOR, str[i]);
      hash := CHashStep(hash, str[i]);
      assert str[..i + 1][..i] == str[..i];
    }
    assert str[..|str|] == str;
  }

  /** `*_string_map_lookup`. The string is any NUL-terminated C string, `char` is signed. */
  method Lookup(t: CTables, str: seq<int>, ghost dict: map<Name, int>, ghost es: seq<Entry>, ghost m: seq<int>)
    returns (num: int)
    requires TablesOf(t, dict, es, m)
    requires forall c <- str :: -128 <= c < 128 && c != 0
    ensures num == if str in dict then dict[str] else -1
  {
    hide TablesOf, Baked, Holds, Hash, Hashes, Slot, Pow2, CStringAt, Emit;
    TablesAreBaked(t, dict, es, m);
    var hash := CHash(str);
    ghost var k := t.bits;
    ghost var turn := PathEnds(dict, es, m, k, hash);
    ghost var level := 0;
    var h := hash;
    StartOfPath(hash);
    while true
      invariant h == (hash + STEP * level) % U32 && 0 <= level <= turn
      invariant Missed(es, m, k, str, level)
      decreases turn - level
    {
      ReadSlot(t, dict, es, m, hash, level);
      var slot := h % Pow2(t.bits);
      var i := t.smap[slot];
      if i == NONE {
        MissingKey(dict, es, m, k, str, level);
        return -1;
      }
      var e := t.entries[i];
      if e.hash == hash && CStringAt(t.strings, e.name) == str {
        return e.num;
      }
      NextWraps(hash, level);
      h := (h + STEP) % U32;
      level := level + 1;
    }
  }

  lemma TablesAreBaked(t: CTables, dict: map<Name, int>, es: seq<Entry>, m: seq<int>)
    requires TablesOf(t, dict, es, m)
    ensures Baked(dict, es, m, t.bits)
  {
  }

  lemma StartOfPath(hash: nat)
    requires hash < U32
    ensures hash == (hash + STEP * 0) % U32
  {
  }

  lemma NextWraps(hash: nat, level: nat)
    ensures ((hash + STEP * level) % U32 + STEP) % U32 == (hash + STEP * (level + 1)) % U32
  {
  }

  /** The rounds before `level` met other keys. */
  ghost predicate Missed(es: seq<Entry>, m: seq<int>, k: nat, str: seq<int>, level: nat)
    requires |m| == Pow2(k) && forall s :: 0 <= s < |m| ==> -1 <= m[s] < |es|
  {
    forall j :: 0 <= j < level ==> m[Slot(Hash(str), j, k)] >= 0 && es[m[Slot(Hash(str), j, k)]].str != str
  }

  /** Some slot on the path is empty. */
  lemma PathEnds(dict: map<Name, int>, es: seq<Entry>, m: seq<int>, k: nat, hash: nat) returns (turn: nat)
    requires Baked(dict, es, m, k)
    ensures |m| == Pow2(k) && forall s :: 0 <= s < |m| ==> -1 <= m[s] < |es|
    ensures m[Slot(hash, turn, k)] == -1
  {
    hide Slot, Pow2;
    var empty := HasEmptySlot(m, Hashes(es), k);
    turn := ProbeReaches(hash, k, empty);
  }

  /** What the C code reads of entry `i`. */
  lemma ReadEntry(t: CTables, dict: map<Name, int>, es: seq<Entry>, m: seq<int>, i: nat)
    requires TablesOf(t, dict, es, m) && i < |es|
    ensures |t.entries| == |es|
    ensures t.entries[i].num == es[i].num && t.entries[i].hash == es[i].hash == Hash(es[i].str)
    ensures CStringAt(t.strings, t.entries[i].name) == es[i].str
    ensures es[i].str in dict && dict[es[i].str] == es[i].num
  {
    hide Hash, CStringAt, Blob, Holds, Pow2, Covers, CEntries, Names, Hashes, Laid;
    EntryNumbers(es, i);
    LaidAt(es, i);
    BlobRead(Names(es), i, [0]);
    BlobPrefix(Names(es), i);
    assert es[i].offset < U32;
  }

  lemma EntryNumbers(es: seq<Entry>, i: nat)
    requires i < |es|
    ensures CEntries(es)[i] == CEntry(es[i].offset % U32, es[i].hash, es[i].num) && Names(es)[i] == es[i].str
  {
    hide CEntries, Names;
  }

  lemma LaidAt(es: seq<Entry>, i: nat)
    requires Laid(es) && i < |es|
    ensures es[i].offset == |Blob(Names(es)[..i])|
  {
    hide Blob, Names;
  }

  /** The printed map: every slot as it was baked, an empty one as `none`. */
  lemma ReadMap(t: CTables, dict: map<Name, int>, es: seq<Entry>, m: seq<int>, slot: nat)
    requires TablesOf(t, dict, es, m) && slot < |m|
    ensures |t.smap| == |m| && -1 <= m[slot] < |es| < 0x1_0000
    ensures t.smap[slot] == if m[slot] >= 0 then m[slot] else NONE
  {
    hide Findable, Pow2, Blob, CEntries, Names, Covers, FromDict, Hashed, Laid, Hashes;
  }

  lemma TableSize(t: CTables, dict: map<Name, int>, es: seq<Entry>, m: seq<int>)
    requires TablesOf(t, dict, es, m)
    ensures |m| == Pow2(t.bits) && t.bits <= 32
    ensures forall s :: 0 <= s < |m| ==> -1 <= m[s] < |es|
  {
    hide Findable, Pow2, Emit, Covers, FromDict, Hashed, Laid, Hashes;
  }

  /** What the C code reads in round `level`. */
  lemma ReadSlot(t: CTables, dict: map<Name, int>, es: seq<Entry>, m: seq<int>, hash: nat, level: nat)
    requires TablesOf(t, dict, es, m)
    ensures |m| == Pow2(t.bits) && forall s :: 0 <= s < |m| ==> -1 <= m[s] < |es|
    ensures var slot := ((hash + STEP * level) % U32) % Pow2(t.bits);
            && slot == Slot(hash, level, t.bits) && slot < |t.smap|
            && var i := t.smap[slot];
            && (i == NONE <==> m[slot] == -1)
            && (i != NONE ==>
                  && i == m[slot] && 0 <= i < |t.entries|
                  && t.entries[i].num == es[i].num && t.entries[i].hash == es[i].hash == Hash(es[i].str)
                  && es[i].str in dict && dict[es[i].str] == es[i].num
                  && CStringAt(t.strings, t.entries[i].name) == es[i].str)
  {
    hide TablesOf, Hash, CStringAt, Pow2;
    TableSize(t, dict, es, m);
    WrapKeepsSlot(hash + STEP * level, t.bits);
    var slot := Slot(hash, level, t.bits);
    hide Slot;
    ReadMap(t, dict, es, m, slot);
    if m[slot] != -1 { ReadEntry(t, dict, es, m, m[slot]); }
  }

  /** A path that comes to an empty slot without meeting the key: the key is not there. */
  lemma MissingKey(dict: map<Name, int>, es: seq<Entry>, m: seq<int>, k: nat, str: seq<int>, level: nat)
    requires Baked(dict, es, m, k)
    requires |m| == Pow2(k) && forall s :: 0 <= s < |m| ==> -1 <= m[s] < |es|
    requires m[Slot(Hash(str), level, k)] == -1 && Missed(es, m, k, str, level)
    ensures str !in dict
  {
  }
}
