/** Ill-formed text: what the decoders and the encoder make of it, piece by piece. */
module Utf8Errors {
  import opened SeqFacts
  import opened Utf8
  import opened Utf8Strings

  // ------------------------------------------------------------------ bytes that are not a row of Table 3-7

  /** The second byte that fits a first byte of a row of three or four. */
  predicate Second(b0: bv8, b1: bv8) {
    && 0x80 <= b1 <= 0xbf
    && (b0 == 0xe0 ==> 0xa0 <= b1) && (b0 == 0xed ==> b1 <= 0x9f)
    && (b0 == 0xf0 ==> 0x90 <= b1) && (b0 == 0xf4 ==> b1 <= 0x8f)
  }

  /** The beginning of a row, but not a whole one. */
  predicate Started(t: seq<bv8>) {
    || (|t| == 1 && 0xc2 <= t[0] <= 0xf4)
    || (|t| == 2 && 0xe0 <= t[0] <= 0xf4 && Second(t[0], t[1]))
    || (|t| == 3 && 0xf0 <= t[0] <= 0xf4 && Second(t[0], t[1]) && 0x80 <= t[2] <= 0xbf)
  }

  /** These are exactly the proper prefixes of rows. */
  lemma StartedIsPrefix(t: seq<bv8>)
    ensures Started(t) <==> t != [] && exists x :: x != [] && Table37(t + x)
  {
    if Started(t) {
      var x := Completion(t);
      assert x != [] && Table37(t + x);
    }
    forall x | t != [] && x != [] && Table37(t + x) ensures Started(t) {
      PrefixIsStarted(t, x);
    }
  }

  lemma PrefixIsStarted(t: seq<bv8>, x: seq<bv8>)
    requires t != [] && x != [] && Table37(t + x)
    ensures Started(t)
  {
    var row := t + x;
    assert row[0] == t[0];
    if |t| > 1 { assert row[1] == t[1]; }
    if |t| > 2 { assert row[2] == t[2]; }
  }

  lemma Completion(t: seq<bv8>) returns (x: seq<bv8>)
    requires Started(t)
    ensures x != [] && Table37(t + x)
  {
    if |t| == 3 || (|t| == 2 && t[0] < 0xf0) || t[0] < 0xe0 {
      x := [0x80];
    } else if |t| == 2 {
      x := [0x80, 0x80];
    } else {
      var b: bv8 := if t[0] == 0xe0 then 0xa0 else if t[0] == 0xf0 then 0x90 else 0x80;
      x := if t[0] < 0xf0 then [b, 0x80] else [b, 0x80, 0x80];
    }
    OneOf(t, x);
  }

  lemma OneOf(t: seq<bv8>, x: seq<bv8>)
    ensures |t + x| == |t| + |x|
    ensures forall i :: 0 <= i < |t| ==> (t + x)[i] == t[i]
    ensures forall i :: 0 <= i < |x| ==> (t + x)[|t| + i] == x[i]
  {
  }

  // ------------------------------------------------------------------ where the automaton is

  /** The state behind the beginning of a row. */
  function StateOf(t: seq<bv8>): bv32
    requires Started(t)
  {
    if |t| == 3 then 1
    else if |t| == 2 then if t[0] < 0xf0 then 1 else 2
    else if t[0] < 0xe0 then 1
    else if t[0] == 0xe0 then 3 else if t[0] == 0xed then 4 else if t[0] < 0xf0 then 2
    else if t[0] == 0xf0 then 5 else if t[0] < 0xf4 then 6 else 7
  }

  lemma StateOfStarted(t: seq<bv8>)
    requires Started(t)
    ensures 0 < StateOf(t) < 8
    ensures StateOf([t[0]]) == NextState(0, t[0])
    ensures |t| > 1 ==> Started([t[0]]) && StateOf([t[0], t[1]]) == NextState(StateOf([t[0]]), t[1])
    ensures |t| > 2 ==> Started([t[0], t[1]]) && StateOf(t) == NextState(StateOf([t[0], t[1]]), t[2])
  {
    NextStateRanges(0, t[0]);
    hide NextState;
    if |t| > 1 { NextStateRanges(StateOf([t[0]]), t[1]); }
    if |t| > 2 { NextStateRanges(StateOf([t[0], t[1]]), t[2]); }
  }

  /** The byte behind it is refused exactly when it neither goes on with a row nor completes one. */
  lemma Refused(t: seq<bv8>, b: bv8)
    requires Started(t)
    ensures NextState(StateOf(t), b) == 8 <==> !Started(t + [b]) && !Table37(t + [b])
  {
    NextStateRanges(StateOf(t), b);
    hide NextState;
    OneOf(t, [b]);
  }

  lemma RefusedFirst(b: bv8)
    ensures NextState(0, b) == 8 <==> !Started([b]) && !Table37([b])
  {
    NextStateRanges(0, b);
    hide NextState;
  }

  /** Reading the beginning of a row leaves the decoder in its state. */
  lemma ReadStarted(t: seq<bv8>, rest: seq<bv8>) returns (cp: bv32)
    requires Started(t)
    ensures 0 < StateOf(t) < 8
    ensures DecodeFrom(0, 0, t + rest) == DecodeFrom(StateOf(t), cp, rest)
  {
    hide NextState, NextCodepoint, DecodeFrom, ValidFrom, Started, StateOf;
    StateOfStarted(t);
    StartedLength(t);
    var c1 := NextCodepoint(0, t[0], 0);
    var s1 := NextState(0, t[0]);
    if |t| == 1 {
      assert t == [t[0]];
      StepInto(0, 0, t[0], rest);
      cp := c1;
    } else {
      var s2, c2 := NextState(s1, t[1]), NextCodepoint(s1, t[1], c1);
      StatesBefore(t);
      if |t| == 2 {
        assert t == [t[0], t[1]] && t + rest == [t[0]] + ([t[1]] + rest);
        StepInto(0, 0, t[0], [t[1]] + rest);
        StepInto(s1, c1, t[1], rest);
        cp := c2;
      } else {
        assert t + rest == [t[0]] + ([t[1]] + ([t[2]] + rest));
        StepInto(0, 0, t[0], [t[1]] + ([t[2]] + rest));
        StepInto(s1, c1, t[1], [t[2]] + rest);
        StepInto(s2, c2, t[2], rest);
        cp := NextCodepoint(s2, t[2], c2);
      }
    }
  }

  lemma StartedLength(t: seq<bv8>)
    requires Started(t)
    ensures 1 <= |t| <= 3 && Started([t[0]])
  {
  }

  lemma StatesBefore(t: seq<bv8>)
    requires Started(t) && |t| > 1
    ensures Started([t[0]]) && 0 < StateOf([t[0]]) < 8
    ensures Started([t[0], t[1]]) && 0 < StateOf([t[0], t[1]]) < 8
    ensures |t| == 2 ==> t == [t[0], t[1]]
  {
  }

  lemma StepRefused(state: bv32, cp: bv32, b: bv8, rest: seq<bv8>)
    requires state < 8 && NextState(state, b) == 8
    ensures DecodeFrom(state, cp, [b] + rest) == [REPLACEMENT] + DecodeFrom(0, 0, rest)
  {
    hide NextState, NextCodepoint;
    assert ([b] + rest)[1..] == rest;
  }

  // ------------------------------------------------------------------ the pieces of any byte string

  /** A row of Table 3-7 is decoded to its scalar value. */
  lemma DecodeRow(row: seq<bv8>, rest: seq<bv8>)
    requires Table37(row)
    ensures IsScalar(Payload(row)) && EncodeScalar(Payload(row)) == row
    ensures Decode(row + rest) == [Payload(row)] + Decode(rest)
  {
    hide DecodeFrom, ValidFrom, Table37, Payload, IsScalar, EncodeScalar;
    TableIsEncoding(row);
    ReadUnit(row, 0, rest);
  }

  /** The beginning of a row, possibly empty, with a byte that does not go on with it: all these bytes
      become one U+FFFD, and decoding starts afresh behind that byte. */
  lemma DecodeBad(t: seq<bv8>, b: bv8, rest: seq<bv8>)
    requires t == [] || Started(t)
    requires !Started(t + [b]) && !Table37(t + [b])
    ensures Decode(t + [b] + rest) == [REPLACEMENT] + Decode(rest)
  {
    hide DecodeFrom, NextState, Started, Table37, StateOf;
    assert t + [b] + rest == t + ([b] + rest);
    if t == [] {
      assert [] + [b] == [b] && [] + ([b] + rest) == [b] + rest;
      RefusedFirst(b);
      StepRefused(0, 0, b, rest);
    } else {
      var cp := ReadStarted(t, [b] + rest);
      Refused(t, b);
      StepRefused(StateOf(t), cp, b, rest);
    }
  }

  /** The beginning of a row at the end becomes one U+FFFD. */
  lemma DecodeUnfinished(t: seq<bv8>)
    requires Started(t)
    ensures Decode(t) == [REPLACEMENT]
  {
    hide NextState, Started, StateOf;
    var cp := ReadStarted(t, []);
    assert t + [] == t;
  }

  /** Every byte string starts with one of these pieces. */
  lemma Pieces(s: seq<bv8>) returns (k: nat)
    requires s != []
    ensures k <= |s|
    ensures Table37(s[..k]) || Started(s) || (k > 0 && (k == 1 || Started(s[..k - 1])) && !Started(s[..k]) && !Table37(s[..k]))
  {
    hide Table37, Started;
    k := 1;
    while k < |s| && Started(s[..k])
      invariant 1 <= k <= |s| && (k == 1 || Started(s[..k - 1]))
    {
      k := k + 1;
    }
    if k == |s| { assert s[..k] == s; }
  }

  // ------------------------------------------------------------------ 16 bit units

  // The pieces of any 16 bit text.

  /** A unit that is no surrogate. */
  lemma EncodeSingleUnit(c: bv16, w: seq<bv16>)
    requires !(0xd800 <= c <= 0xdfff)
    ensures IsScalar(c as bv32) && Encode16([c] + w) == EncodeScalar(c as bv32) + Encode16(w)
  {
    hide IsSurrogate, CodePoints, WellFormed16, EncodeScalar, IsScalar, Encode;
    UnitRanges(c);
    SingleUnit(c);
    DropJoined([c], w);
    SingleStep([c] + w);
    EncodeMore(c as bv32, CodePoints(w));
  }

  /** A pair. */
  lemma EncodeUnitPair(c: bv16, d: bv16, w: seq<bv16>)
    requires 0xd800 <= c <= 0xdbff && 0xdc00 <= d <= 0xdfff
    ensures var u := 0x10000 + ((c as bv32 - 0xd800) << 10) + (d as bv32 - 0xdc00);
            IsScalar(u) && Encode16([c, d] + w) == EncodeScalar(u) + Encode16(w)
  {
    hide IsSurrogate, IsHighSurrogate, IsLowSurrogate, CodePoints, WellFormed16, EncodeScalar, IsScalar;
    hide PairValue, Encode;
    UnitRanges(c);
    UnitRanges(d);
    DropJoined([c, d], w);
    PairStep([c, d] + w);
    PairedUnits(c, d);
    EncodeMore(PairValue(c, d), CodePoints(w));
    PairSum(c, d);
  }

  /** A surrogate with a unit behind it that does not make a pair: both become one U+FFFD. */
  lemma EncodeUnpaired(c: bv16, d: bv16, w: seq<bv16>)
    requires 0xd800 <= c <= 0xdfff && !(c <= 0xdbff && 0xdc00 <= d <= 0xdfff)
    ensures IsScalar(REPLACEMENT) && Encode16([c, d] + w) == EncodeScalar(REPLACEMENT) + Encode16(w)
  {
    hide IsSurrogate, IsHighSurrogate, IsLowSurrogate, CodePoints, WellFormed16, EncodeScalar, IsScalar;
    hide PairValue, Encode;
    UnitRanges(c);
    UnitRanges(d);
    ReplacementIsScalar();
    DropJoined([c, d], w);
    PairStep([c, d] + w);
    EncodeMore(REPLACEMENT, CodePoints(w));
  }

  /** A surrogate at the end. */
  lemma EncodeLastSurrogate(c: bv16)
    requires 0xd800 <= c <= 0xdfff
    ensures IsScalar(REPLACEMENT) && Encode16([c]) == EncodeScalar(REPLACEMENT)
  {
    hide IsSurrogate, CodePoints, WellFormed16, EncodeScalar, IsScalar, Encode;
    UnitRanges(c);
    ReplacementIsScalar();
    LoneStep(c);
    EncodeMore(REPLACEMENT, []);
    assert [REPLACEMENT] + [] == [REPLACEMENT];
    EncodeNothing();
    assert EncodeScalar(REPLACEMENT) + [] == EncodeScalar(REPLACEMENT);
  }

  lemma UnitRanges(c: bv16)
    ensures IsSurrogate(c as bv32) <==> 0xd800 <= c <= 0xdfff
    ensures IsHighSurrogate(c as bv32) <==> 0xd800 <= c <= 0xdbff
    ensures IsLowSurrogate(c as bv32) <==> 0xdc00 <= c <= 0xdfff
  {
    SurrogateRange(c as bv32);
  }

  lemma PairSum(c: bv16, d: bv16)
    requires 0xd800 <= c <= 0xdbff && 0xdc00 <= d <= 0xdfff
    ensures PairValue(c, d) == 0x10000 + ((c as bv32 - 0xd800) << 10) + (d as bv32 - 0xdc00)
  {
  }

  lemma EncodeMore(u: bv32, us: seq<bv32>)
    requires IsScalar(u)
    ensures Encode([u] + us) == EncodeScalar(u) + Encode(us)
  {
    hide EncodeScalar, IsScalar;
    assert ([u] + us)[1..] == us;
  }

  lemma EncodeNothing()
    ensures Encode([]) == []
  {
  }
}
