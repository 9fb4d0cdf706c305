/** The UTF-8 decoder automaton and the encoder of include/filesystem.h, on machine words. */
module Utf8 {

  // ------------------------------------------------------------------ the source's functions

  const S_STRT: bv32 := 0
  const S_RJCT: bv32 := 8
  const REPLACEMENT: bv32 := 0xfffd

  /** `utf8_state_info`: packed nibbles, byte categories first, then one row of states per category. */
  function StateInfo(i: bv32): bv32 {
    if i == 0 then 0x11111111 else if i == 1 then 0x11111111
    else if i == 2 then 0x77777777 else if i == 3 then 0x77777777
    else if i == 4 then 0x88888888 else if i == 5 then 0x88888888
    else if i == 6 then 0x88888888 else if i == 7 then 0x88888888
    else if i == 8 then 0x22222299 else if i == 9 then 0x22222222
    else if i == 10 then 0x22222222 else if i == 11 then 0x22222222
    else if i == 12 then 0x3333333a else if i == 13 then 0x33433333
    else if i == 14 then 0x9995666b else if i == 15 then 0x99999999
    else if i == 16 then 0x88888880 else if i == 17 then 0x22818108
    else if i == 18 then 0x88888881 else if i == 19 then 0x88888882
    else if i == 20 then 0x88888884 else if i == 21 then 0x88888887
    else if i == 22 then 0x88888886 else if i == 23 then 0x82218108
    else if i == 24 then 0x82281108 else if i == 25 then 0x88888888
    else if i == 26 then 0x88888883 else if i == 27 then 0x88888885
    else 0
  }

  function Category(fragment: bv8): bv32 {
    var f := fragment as bv32;
    if f < 128 then 0 else (StateInfo((f >> 3) & 0xf) >> ((f & 7) << 2)) & 0xf
  }

  /** The next state of `consumeUtf8Fragment`. */
  function NextState(state: bv32, fragment: bv8): (r: bv32)
    requires state <= 8
    ensures r <= 8
  {
    if state == S_RJCT then S_RJCT else (StateInfo(Category(fragment) + 16) >> (state << 2)) & 0xf
  }

  /** The code point `consumeUtf8Fragment` accumulates. */
  function NextCodepoint(state: bv32, fragment: bv8, codepoint: bv32): bv32 {
    var f := fragment as bv32;
    if state != 0 then (codepoint << 6) | (f & 0x3f)
    else (0xff >> Category(fragment)) & f
  }

  lemma CategoryRanges(b: bv8)
    ensures Category(b) ==
            if b < 0x80 then 0
            else if b < 0x90 then 1
            else if b < 0xa0 then 7
            else if b < 0xc0 then 8
            else if b < 0xc2 then 9
            else if b < 0xe0 then 2
            else if b == 0xe0 then 10
            else if b == 0xed then 4
            else if b < 0xf0 then 3
            else if b == 0xf0 then 11
            else if b < 0xf4 then 6
            else if b == 0xf4 then 5
            else 9
  {
  }

  lemma NextStateRanges(state: bv32, b: bv8)
    requires state < 8
    ensures NextState(state, b) ==
            if state == 0 then
              if b < 0x80 then 0 else if b < 0xc2 then 8 else if b < 0xe0 then 1
              else if b == 0xe0 then 3 else if b == 0xed then 4 else if b < 0xf0 then 2
              else if b == 0xf0 then 5 else if b < 0xf4 then 6 else if b == 0xf4 then 7 else 8
            else if b < 0x80 || b >= 0xc0 then 8
            else if state == 1 then 0
            else if state == 2 then 1
            else if state == 3 then if b < 0xa0 then 8 else 1
            else if state == 4 then if b < 0xa0 then 1 else 8
            else if state == 5 then if b < 0x90 then 8 else 2
            else if state == 6 then 2
            else if b < 0x90 then 2 else 8
  {
    CategoryRanges(b);
    hide Category;
  }

  // ------------------------------------------------------------------ encoding

  predicate IsScalar(u: bv32) {
    u <= 0x10ffff && !(0xd800 <= u <= 0xdfff)
  }

  /** The bytes `appendUTF8` adds for a code point it accepts. */
  function EncodeScalar(u: bv32): seq<bv8>
    requires IsScalar(u)
  {
    if u <= 0x7f then [u as bv8]
    else if u <= 0x7ff then
      [((u >> 6) + 192) as bv8, ((u & 0x3f) + 128) as bv8]
    else if u <= 0xffff then
      [((u >> 12) + 224) as bv8, (((u & 0xfff) >> 6) + 128) as bv8, ((u & 0x3f) + 128) as bv8]
    else
      [((u >> 18) + 240) as bv8, (((u & 0x3ffff) >> 12) + 128) as bv8,
       (((u & 0xfff) >> 6) + 128) as bv8, ((u & 0x3f) + 128) as bv8]
  }

  // ------------------------------------------------------------------ what a half-read sequence means

  /** The codepoint values that can accompany a state. */
  predicate Reading(state: bv32, cp: bv32) {
    || (state == 1 && 2 <= cp <= 0x43ff && !(0x360 <= cp <= 0x37f))
    || (state == 2 && 1 <= cp <= 0x10f && cp != 0xd)
    || (state == 3 && cp == 0)
    || (state == 4 && cp == 0xd)
    || (state == 5 && cp == 0)
    || (state == 6 && 1 <= cp <= 3)
    || (state == 7 && cp == 4)
  }

  /** The bytes read since the last complete code point, recovered from state and codepoint. */
  function Pending(state: bv32, cp: bv32): seq<bv8>
    requires Reading(state, cp)
  {
    if state == 1 then
      if cp <= 0x1f then [(cp + 0xc0) as bv8]
      else if cp <= 0x3ff then [((cp >> 6) + 0xe0) as bv8, ((cp & 0x3f) + 0x80) as bv8]
      else [((cp >> 12) + 0xf0) as bv8, (((cp >> 6) & 0x3f) + 0x80) as bv8, ((cp & 0x3f) + 0x80) as bv8]
    else if state == 2 then
      if cp <= 0xf then [(cp + 0xe0) as bv8] else [((cp >> 6) + 0xf0) as bv8, ((cp & 0x3f) + 0x80) as bv8]
    else if state <= 4 then [(cp + 0xe0) as bv8]
    else [(cp + 0xf0) as bv8]
  }

  /** Starting a sequence. */
  lemma FirstByte(b: bv8, cp: bv32)
    ensures var state, cp' := NextState(0, b), NextCodepoint(0, b, cp);
            && (state == 0 ==> b < 0x80 && cp' == b as bv32)
            && (state == 0 ==> IsScalar(cp') && EncodeScalar(cp') == [b])
            && (state != 0 && state != 8 ==> Reading(state, cp') && Pending(state, cp') == [b])
            && state <= 8
  {
    CategoryRanges(b);
    NextStateRanges(0, b);
  }

  /** Shifting in six more bits keeps the bits already there. */
  lemma ShiftIn(cp: bv32, b: bv8)
    requires cp <= 0x43ff && 0x80 <= b <= 0xbf
    ensures var u := (cp << 6) | (b as bv32 & 0x3f);
            && u >> 6 == cp && (u & 0x3f) + 0x80 == b as bv32
            && u >> 12 == cp >> 6 && u >> 18 == cp >> 12
            && (u & 0xfff) >> 6 == cp & 0x3f && (u & 0x3ffff) >> 12 == (cp >> 6) & 0x3f
            && cp << 6 <= u <= (cp << 6) + 0x3f
  {
  }

  /** The byte that completes a sequence: all its bytes are an encoding. */
  lemma CompletingByte(cp: bv32, b: bv8)
    requires Reading(1, cp) && 0x80 <= b <= 0xbf
    ensures var u := NextCodepoint(1, b, cp);
            IsScalar(u) && EncodeScalar(u) == Pending(1, cp) + [b]
  {
    hide EncodeScalar, IsScalar;
    if cp <= 0x1f {
      EncodesTwo(cp, b);
    } else if cp <= 0x3ff {
      EncodesThree(cp, b);
    } else {
      EncodesFour(cp, b);
    }
  }

  lemma EncodesTwo(cp: bv32, b: bv8)
    requires 2 <= cp <= 0x1f && 0x80 <= b <= 0xbf
    ensures var u := (cp << 6) | (b as bv32 & 0x3f);
            IsScalar(u) && EncodeScalar(u) == [(cp + 0xc0) as bv8] + [b]
  {
    CompletedRange(cp, b);
    CompletedTwo(cp, b);
  }

  lemma EncodesThree(cp: bv32, b: bv8)
    requires Reading(1, cp) && 0x1f < cp <= 0x3ff && 0x80 <= b <= 0xbf
    ensures var u := (cp << 6) | (b as bv32 & 0x3f);
            IsScalar(u) && EncodeScalar(u) == [((cp >> 6) + 0xe0) as bv8, ((cp & 0x3f) + 0x80) as bv8] + [b]
  {
    CompletedRange(cp, b);
    CompletedThree(cp, b);
  }

  lemma EncodesFour(cp: bv32, b: bv8)
    requires Reading(1, cp) && 0x3ff < cp && 0x80 <= b <= 0xbf
    ensures var u := (cp << 6) | (b as bv32 & 0x3f);
            IsScalar(u) &&
            EncodeScalar(u) == [((cp >> 12) + 0xf0) as bv8, (((cp >> 6) & 0x3f) + 0x80) as bv8,
                                ((cp & 0x3f) + 0x80) as bv8] + [b]
  {
    CompletedRange(cp, b);
    CompletedFour(cp, b);
  }

  lemma CompletedRange(cp: bv32, b: bv8)
    requires 2 <= cp <= 0x43ff && !(0x360 <= cp <= 0x37f) && 0x80 <= b <= 0xbf
    ensures var u := (cp << 6) | (b as bv32 & 0x3f);
            && IsScalar(u) && u > 0x7f && (u <= 0x7ff <==> cp <= 0x1f) && (u <= 0xffff <==> cp <= 0x3ff)
  {
  }

  lemma CompletedTwo(cp: bv32, b: bv8)
    requires 2 <= cp <= 0x1f && 0x80 <= b <= 0xbf
    ensures var u := (cp << 6) | (b as bv32 & 0x3f);
            && ((u >> 6) + 192) as bv8 == (cp + 0xc0) as bv8
            && ((u & 0x3f) + 128) as bv8 == b
  {
  }

  lemma CompletedThree(cp: bv32, b: bv8)
    requires 0x1f < cp <= 0x3ff && 0x80 <= b <= 0xbf
    ensures var u := (cp << 6) | (b as bv32 & 0x3f);
            && ((u >> 12) + 224) as bv8 == ((cp >> 6) + 0xe0) as bv8
            && (((u & 0xfff) >> 6) + 128) as bv8 == ((cp & 0x3f) + 0x80) as bv8
            && ((u & 0x3f) + 128) as bv8 == b
  {
  }

  lemma CompletedFour(cp: bv32, b: bv8)
    requires 0x3ff < cp <= 0x43ff && 0x80 <= b <= 0xbf
    ensures var u := (cp << 6) | (b as bv32 & 0x3f);
            && ((u >> 18) + 240) as bv8 == ((cp >> 12) + 0xf0) as bv8
            && (((u & 0x3ffff) >> 12) + 128) as bv8 == (((cp >> 6) & 0x3f) + 0x80) as bv8
            && (((u & 0xfff) >> 6) + 128) as bv8 == ((cp & 0x3f) + 0x80) as bv8
            && ((u & 0x3f) + 128) as bv8 == b
  {
  }

  /** A byte that leaves a sequence incomplete. */
  lemma MiddleByte(state: bv32, cp: bv32, b: bv8)
    requires Reading(state, cp) && state != 1 && NextState(state, b) != 8
    ensures var state', cp' := NextState(state, b), NextCodepoint(state, b, cp);
            && 0x80 <= b <= 0xbf
            && (state' == 1 || state' == 2)
            && Reading(state', cp') && Pending(state', cp') == Pending(state, cp) + [b]
  {
    NextStateRanges(state, b);
    hide NextState, Category, StateInfo, Pending;
    ShiftIn(cp, b);
    if state <= 4 { PendingOne(state, cp, b); } else { PendingTwo(state, cp, b); }
  }

  /** One more byte is missing now. */
  lemma PendingOne(state: bv32, cp: bv32, b: bv8)
    requires Reading(state, cp) && 2 <= state <= 4 && 0x80 <= b <= 0xbf
    requires Reading(1, (cp << 6) | (b as bv32 & 0x3f)) && (state == 3 ==> b >= 0xa0)
    ensures Pending(1, (cp << 6) | (b as bv32 & 0x3f)) == Pending(state, cp) + [b]
  {
    ShiftIn(cp, b);
  }

  /** Two more bytes are missing now. */
  lemma PendingTwo(state: bv32, cp: bv32, b: bv8)
    requires Reading(state, cp) && 5 <= state <= 7 && 0x80 <= b <= 0xbf
    requires Reading(2, (cp << 6) | (b as bv32 & 0x3f)) && (state == 5 ==> b >= 0x90)
    ensures Pending(2, (cp << 6) | (b as bv32 & 0x3f)) == Pending(state, cp) + [b]
  {
    ShiftIn(cp, b);
  }

  /** Going on with one: either it is complete and its bytes are an encoding, or it is still pending. */
  lemma LaterByte(state: bv32, cp: bv32, b: bv8)
    requires Reading(state, cp)
    ensures var state', cp' := NextState(state, b), NextCodepoint(state, b, cp);
            && (state' == 0 ==> IsScalar(cp') && EncodeScalar(cp') == Pending(state, cp) + [b])
            && (state' != 0 && state' != 8 ==>
                  Reading(state', cp') && Pending(state', cp') == Pending(state, cp) + [b])
            && state' <= 8
  {
    hide NextCodepoint, Pending, EncodeScalar, Category, StateInfo;
    NextStateRanges(state, b);
    if NextState(state, b) != 8 {
      if state == 1 { CompletingByte(cp, b); } else { MiddleByte(state, cp, b); }
    }
  }

  // ------------------------------------------------------------------ reading an encoding back

  predicate TableTwo(b0: bv8, b1: bv8) {
    0xc2 <= b0 <= 0xdf && 0x80 <= b1 <= 0xbf
  }

  predicate TableThree(b0: bv8, b1: bv8, b2: bv8) {
    && 0xe0 <= b0 <= 0xef && 0x80 <= b1 <= 0xbf && 0x80 <= b2 <= 0xbf
    && (b0 == 0xe0 ==> 0xa0 <= b1) && (b0 == 0xed ==> b1 <= 0x9f)
  }

  predicate TableFour(b0: bv8, b1: bv8, b2: bv8, b3: bv8) {
    && 0xf0 <= b0 <= 0xf4 && 0x80 <= b1 <= 0xbf && 0x80 <= b2 <= 0xbf && 0x80 <= b3 <= 0xbf
    && (b0 == 0xf0 ==> 0x90 <= b1) && (b0 == 0xf4 ==> b1 <= 0x8f)
  }

  /** One row of Table 3-7 of the Unicode Standard: a well-formed byte sequence. */
  predicate Table37(bs: seq<bv8>) {
    || (|bs| == 1 && bs[0] <= 0x7f)
    || (|bs| == 2 && TableTwo(bs[0], bs[1]))
    || (|bs| == 3 && TableThree(bs[0], bs[1], bs[2]))
    || (|bs| == 4 && TableFour(bs[0], bs[1], bs[2], bs[3]))
  }

  function PayloadTwo(b0: bv8, b1: bv8): bv32 {
    ((b0 as bv32 & 0x3f) << 6) | (b1 as bv32 & 0x3f)
  }

  function PayloadThree(b0: bv8, b1: bv8, b2: bv8): bv32 {
    ((((b0 as bv32 & 0xf) << 6) | (b1 as bv32 & 0x3f)) << 6) | (b2 as bv32 & 0x3f)
  }

  function PayloadFour(b0: bv8, b1: bv8, b2: bv8, b3: bv8): bv32 {
    ((((((b0 as bv32 & 0x7) << 6) | (b1 as bv32 & 0x3f)) << 6) | (b2 as bv32 & 0x3f)) << 6) | (b3 as bv32 & 0x3f)
  }

  /** The code point of a well-formed byte sequence: the payload bits in order (Table 3-6). */
  function Payload(bs: seq<bv8>): bv32
    requires Table37(bs)
  {
    if |bs| == 1 then bs[0] as bv32
    else if |bs| == 2 then PayloadTwo(bs[0], bs[1])
    else if |bs| == 3 then PayloadThree(bs[0], bs[1], bs[2])
    else PayloadFour(bs[0], bs[1], bs[2], bs[3])
  }

  lemma TwoCarries(u: bv32)
    requires 0x7f < u <= 0x7ff
    ensures var b0, b1 := ((u >> 6) + 192) as bv8, ((u & 0x3f) + 128) as bv8;
            TableTwo(b0, b1) && PayloadTwo(b0, b1) == u
  {
  }

  lemma ThreeCarries(u: bv32)
    requires 0x7ff < u <= 0xffff && !(0xd800 <= u <= 0xdfff)
    ensures var b0, b1, b2 := ((u >> 12) + 224) as bv8, (((u & 0xfff) >> 6) + 128) as bv8, ((u & 0x3f) + 128) as bv8;
            TableThree(b0, b1, b2)
  {
  }

  lemma ThreeCarriesPayload(u: bv32)
    requires 0x7ff < u <= 0xffff
    ensures var b0, b1, b2 := ((u >> 12) + 224) as bv8, (((u & 0xfff) >> 6) + 128) as bv8, ((u & 0x3f) + 128) as bv8;
            PayloadThree(b0, b1, b2) == u
  {
  }

  lemma FourCarries(u: bv32)
    requires 0xffff < u <= 0x10ffff
    ensures var b0, b1 := ((u >> 18) + 240) as bv8, (((u & 0x3ffff) >> 12) + 128) as bv8;
            var b2, b3 := (((u & 0xfff) >> 6) + 128) as bv8, ((u & 0x3f) + 128) as bv8;
            TableFour(b0, b1, b2, b3)
  {
  }

  lemma FourCarriesPayload(u: bv32)
    requires 0xffff < u <= 0x10ffff
    ensures var b0, b1 := ((u >> 18) + 240) as bv8, (((u & 0x3ffff) >> 12) + 128) as bv8;
            var b2, b3 := (((u & 0xfff) >> 6) + 128) as bv8, ((u & 0x3f) + 128) as bv8;
            PayloadFour(b0, b1, b2, b3) == u
  {
  }

  /** Every encoding is a row of Table 3-7 and carries its scalar. */
  lemma EncodingIsInTable(u: bv32)
    requires IsScalar(u)
    ensures Table37(EncodeScalar(u)) && Payload(EncodeScalar(u)) == u
  {
    hide TableTwo, TableThree, TableFour, PayloadTwo, PayloadThree, PayloadFour;
    if u <= 0x7f {
    } else if u <= 0x7ff {
      TwoCarries(u);
    } else if u <= 0xffff {
      ThreeCarries(u);
      ThreeCarriesPayload(u);
    } else {
      FourCarries(u);
      FourCarriesPayload(u);
    }
  }

  /** The payload bits of a first byte, whatever its category. */
  lemma FirstPayload(b: bv8, cp: bv32)
    ensures 0xc2 <= b < 0xe0 ==> NextCodepoint(0, b, cp) == b as bv32 & 0x3f
    ensures 0xe0 <= b < 0xf0 ==> NextCodepoint(0, b, cp) == b as bv32 & 0xf
    ensures 0xf0 <= b <= 0xf4 ==> NextCodepoint(0, b, cp) == b as bv32 & 0x7
  {
    CategoryRanges(b);
    hide Category;
  }

  lemma LaterPayload(state: bv32, b: bv8, cp: bv32)
    requires state != 0
    ensures NextCodepoint(state, b, cp) == (cp << 6) | (b as bv32 & 0x3f)
  {
  }

  /** The automaton on one row of the table: it accepts at the last byte and has the payload then. */
  lemma AcceptsTwo(b0: bv8, b1: bv8, cp: bv32)
    requires TableTwo(b0, b1)
    ensures var s1, c1 := NextState(0, b0), NextCodepoint(0, b0, cp);
            && Reading(s1, c1) && Pending(s1, c1) == [b0]
            && NextState(s1, b1) == 0 && NextCodepoint(s1, b1, c1) == PayloadTwo(b0, b1)
  {
    hide Category, NextState, NextCodepoint, Pending, Reading;
    NextStateRanges(0, b0);
    FirstByte(b0, cp);
    FirstPayload(b0, cp);
    NextStateRanges(1, b1);
    LaterPayload(1, b1, NextCodepoint(0, b0, cp));
  }

  lemma StatesThree(b0: bv8, b1: bv8, b2: bv8)
    requires TableThree(b0, b1, b2)
    ensures var s1 := NextState(0, b0);
            s1 != 0 && s1 < 8 && NextState(s1, b1) == 1 && NextState(1, b2) == 0
  {
    hide NextState, Category;
    NextStateRanges(0, b0);
    NextStateRanges(NextState(0, b0), b1);
    NextStateRanges(1, b2);
  }

  lemma StatesFour(b0: bv8, b1: bv8, b2: bv8, b3: bv8)
    requires TableFour(b0, b1, b2, b3)
    ensures var s1 := NextState(0, b0);
            s1 != 0 && s1 < 8 && NextState(s1, b1) == 2 && NextState(2, b2) == 1 && NextState(1, b3) == 0
  {
    hide NextState, Category;
    NextStateRanges(0, b0);
    NextStateRanges(NextState(0, b0), b1);
    NextStateRanges(2, b2);
    NextStateRanges(1, b3);
  }

  lemma AcceptsThree(b0: bv8, b1: bv8, b2: bv8, cp: bv32)
    requires TableThree(b0, b1, b2)
    ensures var s1, c1 := NextState(0, b0), NextCodepoint(0, b0, cp);
            && Reading(s1, c1) && Pending(s1, c1) == [b0]
            && var s2, c2 := NextState(s1, b1), NextCodepoint(s1, b1, c1);
            && Reading(s2, c2) && Pending(s2, c2) == [b0] + [b1]
            && NextState(s2, b2) == 0 && NextCodepoint(s2, b2, c2) == PayloadThree(b0, b1, b2)
  {
    FirstPayload(b0, cp);
    assert NextCodepoint(0, b0, cp) == b0 as bv32 & 0xf;
    StatesThree(b0, b1, b2);
    hide Category, NextState, NextCodepoint, Pending, Reading, TableThree;
    FirstByte(b0, cp);
    var s1, c1 := NextState(0, b0), NextCodepoint(0, b0, cp);
    LaterByte(s1, c1, b1);
    LaterPayload(s1, b1, c1);
    LaterPayload(1, b2, NextCodepoint(s1, b1, c1));
  }

  lemma AcceptsFour(b0: bv8, b1: bv8, b2: bv8, b3: bv8, cp: bv32)
    requires TableFour(b0, b1, b2, b3)
    ensures var s1, c1 := NextState(0, b0), NextCodepoint(0, b0, cp);
            && Reading(s1, c1) && Pending(s1, c1) == [b0]
            && var s2, c2 := NextState(s1, b1), NextCodepoint(s1, b1, c1);
            && Reading(s2, c2) && Pending(s2, c2) == [b0] + [b1]
            && var s3, c3 := NextState(s2, b2), NextCodepoint(s2, b2, c2);
            && Reading(s3, c3) && Pending(s3, c3) == [b0] + [b1] + [b2]
            && NextState(s3, b3) == 0 && NextCodepoint(s3, b3, c3) == PayloadFour(b0, b1, b2, b3)
  {
    FirstPayload(b0, cp);
    assert NextCodepoint(0, b0, cp) == b0 as bv32 & 0x7;
    StatesFour(b0, b1, b2, b3);
    hide Category, NextState, NextCodepoint, Pending, Reading, TableFour;
    FirstByte(b0, cp);
    var s1, c1 := NextState(0, b0), NextCodepoint(0, b0, cp);
    LaterByte(s1, c1, b1);
    LaterPayload(s1, b1, c1);
    var c2 := NextCodepoint(s1, b1, c1);
    LaterByte(2, c2, b2);
    LaterPayload(2, b2, c2);
    LaterPayload(1, b3, NextCodepoint(2, b2, c2));
  }

  /** Every row of Table 3-7 is the encoding of its payload, which is a scalar value. */
  lemma TableIsEncoding(bs: seq<bv8>)
    requires Table37(bs)
    ensures IsScalar(Payload(bs)) && EncodeScalar(Payload(bs)) == bs
  {
    hide NextState, NextCodepoint, Pending, Reading, EncodeScalar, IsScalar;
    hide TableTwo, TableThree, TableFour, PayloadTwo, PayloadThree, PayloadFour;
    FirstByte(bs[0], 0);
    var s1, c1 := NextState(0, bs[0]), NextCodepoint(0, bs[0], 0);
    if |bs| == 1 {
      NextStateRanges(0, bs[0]);
    } else if |bs| == 2 {
      AcceptsTwo(bs[0], bs[1], 0);
      LaterByte(s1, c1, bs[1]);
    } else {
      var s2, c2 := NextState(s1, bs[1]), NextCodepoint(s1, bs[1], c1);
      if |bs| == 3 {
        AcceptsThree(bs[0], bs[1], bs[2], 0);
        LaterByte(s2, c2, bs[2]);
      } else {
        AcceptsFour(bs[0], bs[1], bs[2], bs[3], 0);
        LaterByte(NextState(s2, bs[2]), NextCodepoint(s2, bs[2], c2), bs[3]);
      }
    }
  }
}
