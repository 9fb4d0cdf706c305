/** Whole strings: validity, decoding to 16 and 32 bit units, encoding, and their round trips. */
module Utf8Strings {
  import opened SeqFacts
  import opened Utf8

  // ------------------------------------------------------------------ the meaning of the loops

  /** The loop of `validUtf8` from a given state. */
  predicate ValidFrom(state: bv32, s: seq<bv8>)
    requires state < 8
    decreases |s|
  {
    if s == [] then state == 0
    else
      var next := NextState(state, s[0]);
      next != S_RJCT && ValidFrom(next, s[1..])
  }

  /** The loop of `fromUtf8` into 32 bit units: errors and an unfinished end become U+FFFD. */
  function DecodeFrom(state: bv32, cp: bv32, s: seq<bv8>): seq<bv32>
    requires state < 8
    decreases |s|
  {
    if s == [] then if state != 0 then [REPLACEMENT] else []
    else
      var next := NextState(state, s[0]);
      var cp' := NextCodepoint(state, s[0], cp);
      if next == S_STRT then [cp'] + DecodeFrom(0, 0, s[1..])
      else if next == S_RJCT then [REPLACEMENT] + DecodeFrom(0, 0, s[1..])
      else DecodeFrom(next, cp', s[1..])
  }

  function Decode(s: seq<bv8>): seq<bv32> {
    DecodeFrom(0, 0, s)
  }

  predicate Valid(s: seq<bv8>) {
    ValidFrom(0, s)
  }

  predicate Scalars(us: seq<bv32>) {
    forall u <- us :: IsScalar(u)
  }

  /** `appendUTF8`: what it adds for any 32 bit value. */
  function Appended(u: bv32): seq<bv8> {
    if IsScalar(u) then EncodeScalar(u) else EncodeScalar(REPLACEMENT)
  }

  function Encode(us: seq<bv32>): seq<bv8> {
    if us == [] then [] else Appended(us[0]) + Encode(us[1..])
  }

  // ------------------------------------------------------------------ decoding gives scalars, and loses nothing valid

  function PendingBytes(state: bv32, cp: bv32): seq<bv8>
    requires state == 0 || Reading(state, cp)
  {
    if state == 0 then [] else Pending(state, cp)
  }

  lemma ReplacementIsScalar()
    ensures IsScalar(REPLACEMENT)
  {
  }

  /** One byte: the bytes of a completed code point are its encoding, other bytes stay pending. */
  lemma OneByte(state: bv32, cp: bv32, b: bv8)
    requires state == 0 || Reading(state, cp)
    ensures state < 8
    ensures var next, cp' := NextState(state, b), NextCodepoint(state, b, cp);
            && (next == 0 ==> IsScalar(cp') && EncodeScalar(cp') == PendingBytes(state, cp) + [b])
            && (next != 0 && next != 8 ==>
                  Reading(next, cp') && Pending(next, cp') == PendingBytes(state, cp) + [b])
            && next <= 8
  {
    hide NextState, NextCodepoint, EncodeScalar, IsScalar, Pending;
    if state == 0 {
      FirstByte(b, cp);
      assert [] + [b] == [b];
    } else {
      LaterByte(state, cp, b);
    }
  }

  lemma {:induction false} DecodeIsFaithful(state: bv32, cp: bv32, s: seq<bv8>)
    requires (state == 0 || Reading(state, cp)) && state < 8
    ensures Scalars(DecodeFrom(state, cp, s))
    ensures ValidFrom(state, s) ==> Encode(DecodeFrom(state, cp, s)) == PendingBytes(state, cp) + s
    decreases |s|
  {
    hide NextState, NextCodepoint, EncodeScalar, Pending, Reading, IsScalar;
    ReplacementIsScalar();
    if s == [] {
      assert [] + s == [];
    } else {
      var b, rest := s[0], s[1..];
      OneByte(state, cp, b);
      var next, cp' := NextState(state, b), NextCodepoint(state, b, cp);
      assert PendingBytes(state, cp) + [b] + rest == PendingBytes(state, cp) + s;
      if next == 0 || next == 8 {
        DecodeIsFaithful(0, 0, rest);
        assert [] + rest == rest;
      } else {
        DecodeIsFaithful(next, cp', rest);
      }
    }
  }

  // ------------------------------------------------------------------ encodings are accepted and decoded back

  lemma StepInto(state: bv32, cp: bv32, b: bv8, rest: seq<bv8>)
    requires state < 8 && 0 < NextState(state, b) < 8
    ensures var next, cp' := NextState(state, b), NextCodepoint(state, b, cp);
            && DecodeFrom(state, cp, [b] + rest) == DecodeFrom(next, cp', rest)
            && ValidFrom(state, [b] + rest) == ValidFrom(next, rest)
  {
    hide NextState, NextCodepoint;
    assert ([b] + rest)[1..] == rest;
  }

  lemma StepOut(state: bv32, cp: bv32, b: bv8, rest: seq<bv8>)
    requires state < 8 && NextState(state, b) == 0
    ensures DecodeFrom(state, cp, [b] + rest) == [NextCodepoint(state, b, cp)] + DecodeFrom(0, 0, rest)
    ensures ValidFrom(state, [b] + rest) == ValidFrom(0, rest)
  {
    hide NextState, NextCodepoint;
    assert ([b] + rest)[1..] == rest;
  }

  /** From the start state, the automaton reads a row of Table 3-7 as its payload and is back. */
  lemma ReadUnit(bs: seq<bv8>, cp: bv32, rest: seq<bv8>)
    requires Table37(bs)
    ensures DecodeFrom(0, cp, bs + rest) == [Payload(bs)] + DecodeFrom(0, 0, rest)
    ensures ValidFrom(0, bs + rest) == ValidFrom(0, rest)
  {
    hide NextState, NextCodepoint, Pending, Reading, DecodeFrom, ValidFrom;
    hide TableTwo, TableThree, TableFour, PayloadTwo, PayloadThree, PayloadFour;
    var s1, c1 := NextState(0, bs[0]), NextCodepoint(0, bs[0], cp);
    if |bs| == 1 {
      NextStateRanges(0, bs[0]);
      FirstByte(bs[0], cp);
      assert bs == [bs[0]];
      StepOut(0, cp, bs[0], rest);
    } else if |bs| == 2 {
      AcceptsTwo(bs[0], bs[1], cp);
      NotIdle(s1, c1);
      StepInto(0, cp, bs[0], [bs[1]] + rest);
      StepOut(s1, c1, bs[1], rest);
      assert bs + rest == [bs[0]] + ([bs[1]] + rest);
    } else {
      var s2, c2 := NextState(s1, bs[1]), NextCodepoint(s1, bs[1], c1);
      if |bs| == 3 {
        AcceptsThree(bs[0], bs[1], bs[2], cp);
        NotIdle(s1, c1);
        NotIdle(s2, c2);
        StepInto(0, cp, bs[0], [bs[1]] + ([bs[2]] + rest));
        StepInto(s1, c1, bs[1], [bs[2]] + rest);
        StepOut(s2, c2, bs[2], rest);
        assert bs + rest == [bs[0]] + ([bs[1]] + ([bs[2]] + rest));
      } else {
        ReadUnitOfFour(bs, cp, rest);
      }
    }
  }

  lemma ReadUnitOfFour(bs: seq<bv8>, cp: bv32, rest: seq<bv8>)
    requires |bs| == 4 && TableFour(bs[0], bs[1], bs[2], bs[3])
    ensures DecodeFrom(0, cp, bs + rest) == [PayloadFour(bs[0], bs[1], bs[2], bs[3])] + DecodeFrom(0, 0, rest)
    ensures ValidFrom(0, bs + rest) == ValidFrom(0, rest)
  {
    hide NextState, NextCodepoint, Pending, Reading, DecodeFrom, ValidFrom, TableFour, PayloadFour;
    var s1, c1 := NextState(0, bs[0]), NextCodepoint(0, bs[0], cp);
    AcceptsFour(bs[0], bs[1], bs[2], bs[3], cp);
    var s2, c2 := NextState(s1, bs[1]), NextCodepoint(s1, bs[1], c1);
    var s3, c3 := NextState(s2, bs[2]), NextCodepoint(s2, bs[2], c2);
    NotIdle(s1, c1);
    NotIdle(s2, c2);
    NotIdle(s3, c3);
    StepInto(0, cp, bs[0], [bs[1]] + ([bs[2]] + ([bs[3]] + rest)));
    StepInto(s1, c1, bs[1], [bs[2]] + ([bs[3]] + rest));
    StepInto(s2, c2, bs[2], [bs[3]] + rest);
    StepOut(s3, c3, bs[3], rest);
    assert bs + rest == [bs[0]] + ([bs[1]] + ([bs[2]] + ([bs[3]] + rest)));
  }

  lemma NotIdle(state: bv32, cp: bv32)
    requires Reading(state, cp)
    ensures 0 < state < 8
  {
  }

  /** Decoding undoes encoding, on all scalar values. */
  lemma {:induction false} DecodeOfEncode(us: seq<bv32>)
    requires Scalars(us)
    ensures Valid(Encode(us)) && Decode(Encode(us)) == us
    decreases |us|
  {
    hide IsScalar, EncodeScalar, Table37, Payload, NextState, NextCodepoint;
    if us != [] {
      assert us[0] in us;
      assert Scalars(us[1..]) by { assert forall u <- us[1..] :: u in us; }
      DecodeOfEncode(us[1..]);
      EncodingIsInTable(us[0]);
      ReadUnit(EncodeScalar(us[0]), 0, Encode(us[1..]));
      assert us == [us[0]] + us[1..];
    }
  }

  /** The packed table accepts exactly the concatenations of encoded scalar values, and decoding
      then gives exactly those scalars. */
  lemma ValidIsEncoding(s: seq<bv8>)
    ensures Scalars(Decode(s))
    ensures Valid(s) <==> Encode(Decode(s)) == s
    ensures Valid(s) <==> exists us :: Scalars(us) && s == Encode(us)
    ensures forall us :: Scalars(us) && s == Encode(us) ==> us == Decode(s)
  {
    hide DecodeFrom, ValidFrom, Encode, Scalars;
    DecodeIsFaithful(0, 0, s);
    assert [] + s == s;
    DecodeOfEncode(Decode(s));
    forall us | Scalars(us) && s == Encode(us) ensures Valid(s) && us == Decode(s) {
      DecodeOfEncode(us);
    }
  }

  /** A cut into rows of Table 3-7. */
  ghost predicate CutIntoRows(s: seq<bv8>, rows: seq<seq<bv8>>) {
    if rows == [] then s == []
    else Table37(rows[0]) && rows[0] <= s && CutIntoRows(s[|rows[0]|..], rows[1..])
  }

  function Rows(us: seq<bv32>): seq<seq<bv8>>
    requires Scalars(us)
  {
    if us == [] then [] else [EncodeScalar(us[0])] + Rows(us[1..])
  }

  lemma {:induction false} RowsCut(us: seq<bv32>)
    requires Scalars(us)
    ensures CutIntoRows(Encode(us), Rows(us))
    decreases |us|
  {
    hide EncodeScalar, Table37, IsScalar;
    if us != [] {
      RowsCut(us[1..]);
      EncodingIsInTable(us[0]);
      assert Encode(us)[|EncodeScalar(us[0])|..] == Encode(us[1..]);
      assert Rows(us)[1..] == Rows(us[1..]);
    }
  }

  lemma {:induction false} CutIsValid(s: seq<bv8>, rows: seq<seq<bv8>>)
    requires CutIntoRows(s, rows)
    ensures Valid(s)
    decreases |rows|
  {
    hide Table37, NextState, Payload, DecodeFrom;
    if rows != [] {
      var rest := s[|rows[0]|..];
      CutIsValid(rest, rows[1..]);
      ReadUnit(rows[0], 0, rest);
      assert rows[0] + rest == s;
    }
  }

  /** `validUtf8` holds exactly of the strings that can be cut into rows of Table 3-7. */
  lemma ValidIsTable37(s: seq<bv8>)
    ensures Valid(s) <==> exists rows :: CutIntoRows(s, rows)
  {
    hide DecodeFrom, ValidFrom, Encode, Scalars, CutIntoRows;
    if Valid(s) {
      ValidIsEncoding(s);
      RowsCut(Decode(s));
      assert CutIntoRows(s, Rows(Decode(s)));
    }
    forall rows | CutIntoRows(s, rows) ensures Valid(s) {
      CutIsValid(s, rows);
    }
  }

  // ------------------------------------------------------------------ 16 bit units

  /** What `fromUtf8` into 16 bit units adds for one code point; the casts truncate. */
  function Units(u: bv32): seq<bv16> {
    if u <= 0xffff then [u as bv16]
    else
      var v := u - 0x10000;
      [(((v >> 10) + 0xd800) & 0xffff) as bv16, (((v & 0x3ff) + 0xdc00) & 0xffff) as bv16]
  }

  /** The loop of `fromUtf8` into 16 bit units. */
  function DecodeFrom16(state: bv32, cp: bv32, s: seq<bv8>): seq<bv16>
    requires state < 8
    decreases |s|
  {
    if s == [] then if state != 0 then [0xfffd] else []
    else
      var next := NextState(state, s[0]);
      var cp' := NextCodepoint(state, s[0], cp);
      if next == S_STRT then Units(cp') + DecodeFrom16(0, 0, s[1..])
      else if next == S_RJCT then [0xfffd] + DecodeFrom16(0, 0, s[1..])
      else DecodeFrom16(next, cp', s[1..])
  }

  function Decode16(s: seq<bv8>): seq<bv16> {
    DecodeFrom16(0, 0, s)
  }

  /** UTF-16 as section 2.1 of RFC 2781 defines it. */
  function Utf16Unit(u: bv32): seq<bv16>
    requires IsScalar(u)
  {
    if u < 0x10000 then [u as bv16]
    else [(0xd800 | ((u - 0x10000) >> 10)) as bv16, (0xdc00 | ((u - 0x10000) & 0x3ff)) as bv16]
  }

  function Utf16(us: seq<bv32>): seq<bv16>
    requires Scalars(us)
  {
    if us == [] then [] else Utf16Unit(us[0]) + Utf16(us[1..])
  }

  lemma UnitsAreUtf16(u: bv32)
    requires IsScalar(u)
    ensures Units(u) == Utf16Unit(u)
  {
  }

  lemma {:induction false} Decode16FromIsUtf16(state: bv32, cp: bv32, s: seq<bv8>)
    requires (state == 0 || Reading(state, cp)) && state < 8
    ensures Scalars(DecodeFrom(state, cp, s))
    ensures DecodeFrom16(state, cp, s) == Utf16(DecodeFrom(state, cp, s))
    decreases |s|
  {
    hide NextState, NextCodepoint, EncodeScalar, Pending, Reading, IsScalar, Utf16Unit, Units;
    DecodeIsFaithful(state, cp, s);
    ReplacementIsScalar();
    UnitsAreUtf16(REPLACEMENT);
    assert Utf16Unit(REPLACEMENT) == [0xfffd] by { ReplacementUnit(); }
    if s != [] {
      OneByte(state, cp, s[0]);
      var next, cp' := NextState(state, s[0]), NextCodepoint(state, s[0], cp);
      if next == 0 {
        UnitsAreUtf16(cp');
        Decode16FromIsUtf16(0, 0, s[1..]);
      } else if next == 8 {
        Decode16FromIsUtf16(0, 0, s[1..]);
      } else {
        Decode16FromIsUtf16(next, cp', s[1..]);
      }
    }
  }

  lemma ReplacementUnit()
    ensures IsScalar(REPLACEMENT) && Utf16Unit(REPLACEMENT) == [0xfffd]
  {
  }

  /** On any bytes at all, the 16 bit decoder is the UTF-16 form of the 32 bit decoder. */
  lemma Decode16IsUtf16(s: seq<bv8>)
    ensures Scalars(Decode(s)) && Decode16(s) == Utf16(Decode(s))
  {
    hide DecodeFrom, DecodeFrom16, Utf16, Scalars;
    Decode16FromIsUtf16(0, 0, s);
  }

  // ------------------------------------------------------------------ encoding 16 bit units

  predicate InRange(c: bv32, lo: bv32, hi: bv32) {
    c - lo < hi - lo + 1
  }

  predicate IsSurrogate(c: bv32) {
    InRange(c, 0xd800, 0xdfff)
  }

  predicate IsHighSurrogate(c: bv32) {
    c & 0xfffffc00 == 0xd800
  }

  predicate IsLowSurrogate(c: bv32) {
    c & 0xfffffc00 == 0xdc00
  }

  predicate IsPair(c: bv16, d: bv16) {
    IsHighSurrogate(c as bv32) && IsLowSurrogate(d as bv32)
  }

  function PairValue(c: bv16, d: bv16): bv32 {
    ((c as bv32) << 10) + d as bv32 - 0x35fdc00
  }

  /** The code points `toUtf8` finds in 16 bit units. A surrogate without partner takes the unit
      behind it along. */
  function CodePoints(w: seq<bv16>): seq<bv32> {
    if w == [] then []
    else
      var c := w[0] as bv32;
      if IsSurrogate(c) then
        if |w| > 1 && IsPair(w[0], w[1]) then [PairValue(w[0], w[1])] + CodePoints(w[2..])
        else [REPLACEMENT] + (if |w| == 1 then [] else CodePoints(w[2..]))
      else [c] + CodePoints(w[1..])
  }

  function Encode16(w: seq<bv16>): seq<bv8> {
    Encode(CodePoints(w))
  }

  /** No unpaired surrogate. */
  predicate WellFormed16(w: seq<bv16>) {
    if w == [] then true
    else if IsSurrogate(w[0] as bv32) then |w| > 1 && IsPair(w[0], w[1]) && WellFormed16(w[2..])
    else WellFormed16(w[1..])
  }

  lemma SurrogateRange(c: bv32)
    ensures IsSurrogate(c) <==> 0xd800 <= c <= 0xdfff
    ensures IsHighSurrogate(c) <==> 0xd800 <= c <= 0xdbff
    ensures IsLowSurrogate(c) <==> 0xdc00 <= c <= 0xdfff
  {
  }

  lemma PairIsUtf16(c: bv16, d: bv16)
    requires 0xd800 <= c <= 0xdbff && 0xdc00 <= d <= 0xdfff
    ensures var u := PairValue(c, d);
            && 0x10000 <= u <= 0x10ffff
            && (0xd800 | ((u - 0x10000) >> 10)) as bv16 == c
            && (0xdc00 | ((u - 0x10000) & 0x3ff)) as bv16 == d
  {
  }

  lemma SingleUnit(c: bv16)
    requires !IsSurrogate(c as bv32)
    ensures IsScalar(c as bv32) && Utf16Unit(c as bv32) == [c]
  {
    SurrogateRange(c as bv32);
  }

  lemma PairedUnits(c: bv16, d: bv16)
    requires IsPair(c, d)
    ensures IsSurrogate(c as bv32)
    ensures IsScalar(PairValue(c, d)) && Utf16Unit(PairValue(c, d)) == [c, d]
  {
    hide PairValue;
    SurrogateRange(c as bv32);
    SurrogateRange(d as bv32);
    PairIsUtf16(c, d);
  }

  lemma SingleStep(w: seq<bv16>)
    requires w != [] && !IsSurrogate(w[0] as bv32)
    ensures CodePoints(w) == [w[0] as bv32] + CodePoints(w[1..])
    ensures WellFormed16(w) == WellFormed16(w[1..])
  {
    hide IsSurrogate, IsPair, PairValue;
  }

  lemma PairStep(w: seq<bv16>)
    requires |w| > 1 && IsSurrogate(w[0] as bv32)
    ensures CodePoints(w)
            == [if IsPair(w[0], w[1]) then PairValue(w[0], w[1]) else REPLACEMENT] + CodePoints(w[2..])
    ensures WellFormed16(w) == (IsPair(w[0], w[1]) && WellFormed16(w[2..]))
  {
    hide IsSurrogate, IsPair, PairValue;
  }

  lemma LoneStep(c: bv16)
    requires IsSurrogate(c as bv32)
    ensures CodePoints([c]) == [REPLACEMENT] && !WellFormed16([c])
  {
    hide IsSurrogate, IsPair, PairValue;
  }

  lemma Utf16Cons(u: bv32, us: seq<bv32>)
    requires IsScalar(u) && Scalars(us)
    ensures Scalars([u] + us) && Utf16([u] + us) == Utf16Unit(u) + Utf16(us)
  {
    hide IsScalar, Utf16Unit;
    assert ([u] + us)[1..] == us;
  }

  lemma FaithfulCons(w: seq<bv16>, k: nat, u: bv32)
    requires k <= |w| && CodePoints(w) == [u] + CodePoints(w[k..]) && IsScalar(u)
    requires Scalars(CodePoints(w[k..]))
    requires WellFormed16(w) ==> WellFormed16(w[k..]) && Utf16Unit(u) == w[..k]
    requires WellFormed16(w[k..]) ==> Utf16(CodePoints(w[k..])) == w[k..]
    ensures Scalars(CodePoints(w))
    ensures WellFormed16(w) ==> Utf16(CodePoints(w)) == w
  {
    hide IsScalar, Utf16Unit, CodePoints, WellFormed16, Utf16, Scalars;
    Utf16Cons(u, CodePoints(w[k..]));
    CutAt(w, k);
  }

  /** On any units at all the code points are scalars; without unpaired surrogates they are the text. */
  lemma {:induction false} CodePointsAreFaithful(w: seq<bv16>)
    ensures Scalars(CodePoints(w))
    ensures WellFormed16(w) ==> Utf16(CodePoints(w)) == w
    decreases |w|
  {
    hide IsSurrogate, CodePoints, WellFormed16, Utf16, Scalars;
    if w == [] {
      FaithfulNone();
    } else if !IsSurrogate(w[0] as bv32) {
      FaithfulSingle(w);
    } else if |w| == 1 {
      FaithfulLone(w);
    } else {
      FaithfulPair(w);
    }
  }

  lemma FaithfulNone()
    ensures Scalars(CodePoints([])) && Utf16(CodePoints([])) == []
  {
  }

  lemma {:induction false} FaithfulSingle(w: seq<bv16>)
    requires w != [] && !IsSurrogate(w[0] as bv32)
    ensures Scalars(CodePoints(w))
    ensures WellFormed16(w) ==> Utf16(CodePoints(w)) == w
    decreases |w|, 0
  {
    hide IsScalar, IsSurrogate, Utf16Unit, CodePoints, WellFormed16, Utf16, Scalars;
    SingleUnit(w[0]);
    SingleStep(w);
    CodePointsAreFaithful(w[1..]);
    One(w);
    FaithfulCons(w, 1, w[0] as bv32);
  }

  lemma FaithfulLone(w: seq<bv16>)
    requires |w| == 1 && IsSurrogate(w[0] as bv32)
    ensures Scalars(CodePoints(w)) && !WellFormed16(w)
  {
    hide IsScalar, IsSurrogate, CodePoints, WellFormed16, Scalars;
    One(w);
    LoneStep(w[0]);
    ReplacementIsScalar();
    ScalarsOne(REPLACEMENT);
  }

  lemma {:induction false} FaithfulPair(w: seq<bv16>)
    requires |w| > 1 && IsSurrogate(w[0] as bv32)
    ensures Scalars(CodePoints(w))
    ensures WellFormed16(w) ==> Utf16(CodePoints(w)) == w
    decreases |w|, 0
  {
    hide IsScalar, IsSurrogate, IsPair, PairValue, Utf16Unit, CodePoints, WellFormed16, Utf16, Scalars;
    PairStep(w);
    CodePointsAreFaithful(w[2..]);
    if IsPair(w[0], w[1]) {
      PairedUnits(w[0], w[1]);
      One(w);
      FaithfulCons(w, 2, PairValue(w[0], w[1]));
    } else {
      ReplacementIsScalar();
      FaithfulCons(w, 2, REPLACEMENT);
    }
  }

  lemma ScalarsOne(u: bv32)
    ensures Scalars([u]) == IsScalar(u)
  {
    assert u in [u];
  }

  lemma UnitReadBack(u: bv32)
    requires IsScalar(u)
    ensures u < 0x10000 ==> Utf16Unit(u) == [u as bv16] && !IsSurrogate((u as bv16) as bv32)
    ensures u >= 0x10000 ==> IsPair(Utf16Unit(u)[0], Utf16Unit(u)[1]) && |Utf16Unit(u)| == 2
                             && PairValue(Utf16Unit(u)[0], Utf16Unit(u)[1]) == u
  {
    if u >= 0x10000 { PairReadBack(u); }
  }

  lemma PairReadBack(u: bv32)
    requires 0x10000 <= u <= 0x10ffff
    ensures var c, d := (0xd800 | ((u - 0x10000) >> 10)) as bv16, (0xdc00 | ((u - 0x10000) & 0x3ff)) as bv16;
            IsPair(c, d) && PairValue(c, d) == u
  {
  }

  /** UTF-16 text is well formed and its code points are the ones it was made from. */
  lemma {:induction false} CodePointsOfUtf16(us: seq<bv32>)
    requires Scalars(us)
    ensures WellFormed16(Utf16(us)) && CodePoints(Utf16(us)) == us
    decreases |us|
  {
    hide IsScalar, IsSurrogate, IsPair, PairValue, Utf16Unit;
    if us != [] {
      var u, rest := us[0], us[1..];
      assert u in us && us == [u] + rest;
      assert Scalars(rest) by { assert forall v <- rest :: v in us; }
      hide CodePoints, WellFormed16, Utf16, Scalars;
      CodePointsOfUtf16(rest);
      Utf16Cons(u, rest);
      ReadBackCons(u, Utf16(rest));
    }
  }

  /** The first code point of a text that starts with the units of `u`. */
  lemma ReadBackCons(u: bv32, rest: seq<bv16>)
    requires IsScalar(u)
    ensures CodePoints(Utf16Unit(u) + rest) == [u] + CodePoints(rest)
    ensures WellFormed16(Utf16Unit(u) + rest) == WellFormed16(rest)
  {
    hide IsScalar, IsSurrogate, IsPair, PairValue, Utf16Unit, CodePoints, WellFormed16;
    UnitReadBack(u);
    var unit := Utf16Unit(u);
    if u < 0x10000 {
      BmpCast(u);
      ReadBackSingle(u as bv16, rest);
    } else {
      PairedUnits(unit[0], unit[1]);
      ReadBackPair(u, unit, rest);
    }
  }

  lemma ReadBackSingle(c: bv16, rest: seq<bv16>)
    requires !IsSurrogate(c as bv32)
    ensures CodePoints([c] + rest) == [c as bv32] + CodePoints(rest)
    ensures WellFormed16([c] + rest) == WellFormed16(rest)
  {
    hide IsSurrogate, IsPair, PairValue, CodePoints, WellFormed16;
    DropJoined([c], rest);
    SingleStep([c] + rest);
  }

  lemma ReadBackPair(u: bv32, unit: seq<bv16>, rest: seq<bv16>)
    requires |unit| == 2 && IsSurrogate(unit[0] as bv32) && IsPair(unit[0], unit[1])
    requires PairValue(unit[0], unit[1]) == u
    ensures CodePoints(unit + rest) == [u] + CodePoints(rest)
    ensures WellFormed16(unit + rest) == WellFormed16(rest)
  {
    hide IsSurrogate, IsPair, PairValue, CodePoints, WellFormed16;
    DropJoined(unit, rest);
    PairStep(unit + rest);
  }

  lemma BmpCast(u: bv32)
    requires u < 0x10000
    ensures (u as bv16) as bv32 == u
  {
  }

  // ------------------------------------------------------------------ round trips

  /** Bytes to 16 bit units and back: the same bytes exactly when they were valid; valid in any case. */
  lemma RoundTripThrough16(s: seq<bv8>)
    ensures WellFormed16(Decode16(s))
    ensures Encode16(Decode16(s)) == s <==> Valid(s)
    ensures Valid(Encode16(Decode16(s)))
  {
    hide Decode, Encode, Valid, Utf16, CodePoints, WellFormed16, DecodeFrom16;
    Decode16IsUtf16(s);
    CodePointsOfUtf16(Decode(s));
    ValidIsEncoding(s);
    DecodeOfEncode(Decode(s));
  }

  /** 16 bit units to bytes and back: the same units exactly when no surrogate was unpaired. */
  lemma RoundTripFrom16(w: seq<bv16>)
    ensures Valid(Encode16(w))
    ensures Decode16(Encode16(w)) == w <==> WellFormed16(w)
  {
    hide Decode, Encode, Valid, Utf16, CodePoints, WellFormed16, DecodeFrom16;
    CodePointsAreFaithful(w);
    DecodeOfEncode(CodePoints(w));
    Decode16IsUtf16(Encode16(w));
    CodePointsOfUtf16(CodePoints(w));
  }

  lemma {:induction false} EncodeOfReplaced(us: seq<bv32>)
    ensures var vs := Replaced(us); Scalars(vs) && Encode(us) == Encode(vs)
    ensures Replaced(us) == us <==> Scalars(us)
    decreases |us|
  {
    hide IsScalar, EncodeScalar;
    ReplacementIsScalar();
    if us != [] {
      EncodeOfReplaced(us[1..]);
      assert us == [us[0]] + us[1..];
      assert us[0] in us && forall u <- us[1..] :: u in us;
      assert Replaced(us)[1..] == Replaced(us[1..]);
    }
  }

  function Replaced(us: seq<bv32>): (vs: seq<bv32>)
    ensures |vs| == |us|
  {
    if us == [] then [] else [if IsScalar(us[0]) then us[0] else REPLACEMENT] + Replaced(us[1..])
  }

  /** 32 bit units to bytes and back, and the other way round. */
  lemma RoundTrip32(us: seq<bv32>, s: seq<bv8>)
    ensures Valid(Encode(us))
    ensures Decode(Encode(us)) == us <==> Scalars(us)
    ensures Encode(Decode(s)) == s <==> Valid(s)
  {
    hide Decode, Encode, Valid, Scalars;
    EncodeOfReplaced(us);
    DecodeOfEncode(Replaced(us));
    ValidIsEncoding(s);
  }

  // ------------------------------------------------------------------ the loops

  lemma ValidStep(state: bv32, s: seq<bv8>, i: nat)
    requires state < 8 && i < |s|
    ensures var next := NextState(state, s[i]);
            ValidFrom(state, s[i..]) == (next != 8 && ValidFrom(next, s[i + 1..]))
  {
    hide NextState;
    assert s[i..][1..] == s[i + 1..];
  }

  method ValidUtf8(s: seq<bv8>) returns (valid: bool)
    ensures valid == Valid(s)
    ensures valid <==> exists us :: Scalars(us) && s == Encode(us)
  {
    ValidIsEncoding(s);
    var i := 0;
    var state, codepoint: bv32 := S_STRT, 0;
    assert s[0..] == s;
    while i < |s|
      invariant 0 <= i <= |s| && state < 8
      invariant Valid(s) == ValidFrom(state, s[i..])
    {
      hide ValidFrom, NextState, NextCodepoint, Scalars, Encode;
      ValidStep(state, s, i);
      state, codepoint := NextState(state, s[i]), NextCodepoint(state, s[i], codepoint);
      i := i + 1;
      if state == S_RJCT {
        return false;
      }
    }
    return state == 0;
  }

  /** `appendUTF8`. */
  method AppendUtf8(str: seq<bv8>, unicode: bv32) returns (r: seq<bv8>)
    ensures r == str + Appended(unicode)
    ensures r[..|str|] == str && Table37(r[|str|..])
    ensures Payload(r[|str|..]) == if IsScalar(unicode) then unicode else REPLACEMENT
  {
    ReplacementIsScalar();
    var u := if IsScalar(unicode) then unicode else REPLACEMENT;
    EncodingIsInTable(u);
    hide EncodeScalar, Table37, Payload;
    r := str + EncodeScalar(u);
    assert r[|str|..] == EncodeScalar(u);
  }

  lemma DecodeStep(state: bv32, cp: bv32, s: seq<bv8>, i: nat)
    requires state < 8 && i < |s|
    ensures var next, cp' := NextState(state, s[i]), NextCodepoint(state, s[i], cp);
            DecodeFrom(state, cp, s[i..]) ==
            if next == 0 then [cp'] + DecodeFrom(0, 0, s[i + 1..])
            else if next == 8 then [REPLACEMENT] + DecodeFrom(0, 0, s[i + 1..])
            else DecodeFrom(next, cp', s[i + 1..])
  {
    hide NextState, NextCodepoint;
    assert s[i..][1..] == s[i + 1..];
  }

  lemma DecodeEnds(s: seq<bv8>)
    ensures Decode(s) == DecodeFrom(0, 0, s[0..]) && Decode16(s) == DecodeFrom16(0, 0, s[0..])
    ensures forall state, cp :: state < 8 ==>
              && DecodeFrom(state, cp, s[|s|..]) == (if state == 0 then [] else [REPLACEMENT])
              && DecodeFrom16(state, cp, s[|s|..]) == if state == 0 then [] else [0xfffd]
  {
    assert s[0..] == s;
  }

  method FromUtf8To32(s: seq<bv8>) returns (result: seq<bv32>)
    ensures result == Decode(s)
    ensures Scalars(result)
  {
    hide NextState, NextCodepoint, DecodeFrom, DecodeFrom16, Decode, Decode16, Scalars, Valid, Encode;
    ValidIsEncoding(s);
    result := [];
    var i := 0;
    var state, codepoint: bv32 := S_STRT, 0;
    DecodeEnds(s);
    while i < |s|
      invariant 0 <= i <= |s| && state < 8
      invariant state == 0 ==> codepoint == 0
      invariant Decode(s) == result + DecodeFrom(state, codepoint, s[i..])
    {
      DecodeStep(state, codepoint, s, i);
      state, codepoint := NextState(state, s[i]), NextCodepoint(state, s[i], codepoint);
      i := i + 1;
      if state == S_STRT {
        result := result + [codepoint];
        codepoint := 0;
      } else if state == S_RJCT {
        result := result + [REPLACEMENT];
        state, codepoint := S_STRT, 0;
      }
    }
    if state != 0 {
      result := result + [REPLACEMENT];
    }
  }

  lemma Decode16Step(state: bv32, cp: bv32, s: seq<bv8>, i: nat)
    requires state < 8 && i < |s|
    ensures var next, cp' := NextState(state, s[i]), NextCodepoint(state, s[i], cp);
            DecodeFrom16(state, cp, s[i..]) ==
            if next == 0 then Units(cp') + DecodeFrom16(0, 0, s[i + 1..])
            else if next == 8 then [0xfffd] + DecodeFrom16(0, 0, s[i + 1..])
            else DecodeFrom16(next, cp', s[i + 1..])
  {
    hide NextState, NextCodepoint, Units;
    assert s[i..][1..] == s[i + 1..];
  }

  /** The two branches of the accept case of `fromUtf8` into 16 bit units. */
  method AppendUnits(result: seq<bv16>, cp: bv32) returns (r: seq<bv16>)
    ensures r == result + Units(cp)
  {
    if cp <= 0xffff {
      r := result + [cp as bv16];
    } else {
      var codepoint := cp - 0x10000;
      r := result + [(((codepoint >> 10) + 0xd800) & 0xffff) as bv16];
      r := r + [(((codepoint & 0x3ff) + 0xdc00) & 0xffff) as bv16];
    }
  }

  method FromUtf8To16(s: seq<bv8>) returns (result: seq<bv16>)
    ensures result == Decode16(s)
    ensures Scalars(Decode(s)) && result == Utf16(Decode(s))
  {
    hide NextState, NextCodepoint, DecodeFrom, DecodeFrom16, Decode16, Scalars, Decode, Utf16, Valid, Units;
    Decode16IsUtf16(s);
    result := [];
    var i := 0;
    var state, codepoint: bv32 := S_STRT, 0;
    DecodeEnds(s);
    while i < |s|
      invariant 0 <= i <= |s| && state < 8
      invariant state == 0 ==> codepoint == 0
      invariant Decode16(s) == result + DecodeFrom16(state, codepoint, s[i..])
    {
      Decode16Step(state, codepoint, s, i);
      state, codepoint := NextState(state, s[i]), NextCodepoint(state, s[i], codepoint);
      i := i + 1;
      if state == S_STRT {
        JoinAssociates(result, Units(codepoint), DecodeFrom16(0, 0, s[i..]));
        result := AppendUnits(result, codepoint);
        codepoint := 0;
      } else if state == S_RJCT {
        result := result + [0xfffd];
        state, codepoint := S_STRT, 0;
      }
    }
    if state != 0 {
      result := result + [0xfffd];
    }
  }

  lemma EncodeCons(u: bv32, us: seq<bv32>)
    ensures Encode([u] + us) == Appended(u) + Encode(us)
  {
    hide Appended;
    assert ([u] + us)[1..] == us;
  }

  /** What the loop of `toUtf8` does at unit `i`: a unit that is no surrogate, the last unit, two units. */
  lemma EncodeSingle(w: seq<bv16>, i: nat)
    requires i < |w| && !IsSurrogate(w[i] as bv32)
    ensures Encode16(w[i..]) == Appended(w[i] as bv32) + Encode16(w[i + 1..])
  {
    hide IsSurrogate, IsPair, PairValue, Appended, CodePoints, Encode;
    DropOfDrop(w, i, 1);
    SingleStep(w[i..]);
    EncodeCons(w[i] as bv32, CodePoints(w[i + 1..]));
  }

  lemma EncodeLone(w: seq<bv16>, i: nat)
    requires i + 1 == |w| && IsSurrogate(w[i] as bv32)
    ensures Encode16(w[i..]) == Appended(REPLACEMENT)
  {
    hide IsSurrogate, IsPair, PairValue, Appended, CodePoints, Encode;
    One(w[i..]);
    LoneStep(w[i]);
    EncodeOne(REPLACEMENT);
  }

  lemma EncodePair(w: seq<bv16>, i: nat)
    requires i + 1 < |w| && IsSurrogate(w[i] as bv32)
    ensures Encode16(w[i..]) ==
            Appended(if IsPair(w[i], w[i + 1]) then PairValue(w[i], w[i + 1]) else REPLACEMENT) + Encode16(w[i + 2..])
  {
    hide IsSurrogate, IsPair, PairValue, Appended, CodePoints, Encode;
    DropOfDrop(w, i, 2);
    PairStep(w[i..]);
    EncodeCons(if IsPair(w[i], w[i + 1]) then PairValue(w[i], w[i + 1]) else REPLACEMENT, CodePoints(w[i + 2..]));
  }

  lemma EncodeOne(u: bv32)
    ensures Encode([u]) == Appended(u)
  {
    hide Appended;
  }

  lemma Encode16Ends(w: seq<bv16>)
    ensures w[0..] == w && Encode16(w[|w|..]) == []
  {
  }

  method ToUtf8From16(w: seq<bv16>) returns (result: seq<bv8>)
    ensures result == Encode16(w)
    ensures Valid(result)
  {
    hide *;
    RoundTripFrom16(w);
    result := [];
    var i := 0;
    Encode16Ends(w);
    while i < |w|
      invariant 0 <= i <= |w|
      invariant Encode16(w) == result + Encode16(w[i..])
    {
      var c := w[i];
      if IsSurrogate(c as bv32) {
        if i + 1 < |w| { EncodePair(w, i); } else { EncodeLone(w, i); }
        i := i + 1;
        if i < |w| && IsPair(c, w[i]) {
          result := AppendUtf8(result, PairValue(c, w[i]));
        } else {
          result := AppendUtf8(result, REPLACEMENT);
          if i == |w| {
            break;
          }
        }
      } else {
        EncodeSingle(w, i);
        result := AppendUtf8(result, c as bv32);
      }
      i := i + 1;
    }
  }

  lemma EncodeStep(us: seq<bv32>, i: nat)
    requires i < |us|
    ensures Encode(us[i..]) == Appended(us[i]) + Encode(us[i + 1..])
  {
    assert us[i..] == [us[i]] + us[i + 1..];
    EncodeCons(us[i], us[i + 1..]);
  }

  lemma EncodeEnds(us: seq<bv32>)
    ensures us[0..] == us && Encode(us[|us|..]) == []
  {
  }

  method ToUtf8From32(us: seq<bv32>) returns (result: seq<bv8>)
    ensures result == Encode(us)
    ensures Valid(result)
  {
    hide *;
    RoundTrip32(us, []);
    result := [];
    EncodeEnds(us);
    for i := 0 to |us|
      invariant Encode(us) == result + Encode(us[i..])
    {
      EncodeStep(us, i);
      result := AppendUtf8(result, us[i]);
    }
  }
}
