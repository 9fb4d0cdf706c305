/** `process_char`, `parse_command` and the receive loop of src/control.cpp, on their buffers. */
module ControlSocket {
  import opened SeqFacts
  import opened Control

  // ------------------------------------------------------------------ parse_command

  /** `!strncmp(a, b, n)` for buffers of characters; both are NUL-terminated within `n`. */
  function SameUpTo(a: seq<char>, b: seq<char>, n: nat): bool
    requires |a| >= n && (|b| >= n || '\0' in b)
    decreases n
  {
    n == 0 || (a[0] == b[0] && (a[0] == '\0' || SameUpTo(a[1..], b[1..], n - 1)))
  }

  /** The text of a buffer up to its first NUL. */
  function CText(s: string): string {
    if s == "" || s[0] == '\0' then "" else [s[0]] + CText(s[1..])
  }

  /** Since the length passed on counts the NUL, a command matches a literal only as a whole,
      except that a NUL inside the command ends it. */
  lemma {:induction false} MatchIsWhole(cmd: string, literal: string)
    requires '\0' !in literal
    ensures SameUpTo(cmd + ['\0'], literal + ['\0'], |cmd| + 1) <==> CText(cmd) == literal
    decreases |cmd|
  {
    if cmd == "" {
      assert (cmd + ['\0'])[0] == '\0';
      if literal != "" { assert literal[0] in literal; }
    } else if literal == "" {
    } else {
      assert literal[0] in literal;
      assert (cmd + ['\0'])[1..] == cmd[1..] + ['\0'];
      assert (literal + ['\0'])[1..] == literal[1..] + ['\0'];
      if cmd[0] == literal[0] {
        MatchIsWhole(cmd[1..], literal[1..]);
        assert literal == [literal[0]] + literal[1..];
      }
    }
  }

  function SkipBlanks(s: string): string {
    if s != "" && IsBlank(s[0]) then SkipBlanks(s[1..]) else s
  }

  function Digits(s: string, value: nat): nat
    decreases |s|
  {
    if s != "" && '0' <= s[0] <= '9' then Digits(s[1..], 10 * value + (s[0] as int - '0' as int)) else value
  }

  /** `atoi`, without its overflow. */
  function Atoi(s: string): int {
    var t := SkipBlanks(s);
    if t != "" && t[0] == '-' then 0 - Digits(t[1..], 0) as int
    else if t != "" && t[0] == '+' then Digits(t[1..], 0)
    else Digits(t, 0)
  }

  predicate IsDigit(c: char) {
    '0' <= c <= '9'
  }

  function Digit(d: nat): (c: char)
    requires d < 10
    ensures IsDigit(c) && c as int - '0' as int == d
  {
    ('0' as int + d) as char
  }

  /** A number in decimal. */
  function Decimal(n: nat): string {
    if n < 10 then [Digit(n)] else Decimal(n / 10) + [Digit(n % 10)]
  }

  lemma DigitThen(c: char, s: string, value: nat)
    requires IsDigit(c)
    ensures Digits([c] + s, value) == Digits(s, 10 * value + (c as int - '0' as int))
  {
    assert ([c] + s)[1..] == s;
  }

  lemma {:induction false} DigitsOfDecimal(n: nat, s: string)
    ensures Digits(Decimal(n) + s, 0) == Digits(s, n)
  {
    hide Digits;
    if n < 10 {
      DigitThen(Digit(n), s, 0);
    } else {
      var last := [Digit(n % 10)];
      assert Decimal(n) + s == Decimal(n / 10) + (last + s);
      DigitsOfDecimal(n / 10, last + s);
      DigitThen(Digit(n % 10), s, n / 10);
    }
  }

  lemma {:induction false} LeadingZeros(zeros: string, s: string)
    requires forall c <- zeros :: c == '0'
    ensures Digits(zeros + s, 0) == Digits(s, 0)
    decreases |zeros|
  {
    if zeros == "" {
      assert zeros + s == s;
    } else {
      assert zeros[0] in zeros && forall c <- zeros[1..] :: c in zeros;
      assert (zeros + s)[1..] == zeros[1..] + s;
      LeadingZeros(zeros[1..], s);
    }
  }

  predicate IsBlank(c: char) {
    c in {' ', '\t', '\n', '\U{0B}', '\U{0C}', '\r'}
  }

  lemma {:induction false} BlanksAreSkipped(blanks: string, s: string)
    requires (forall c <- blanks :: IsBlank(c)) && (s == "" || !IsBlank(s[0]))
    ensures SkipBlanks(blanks + s) == s
    decreases |blanks|
  {
    if blanks == "" {
      assert blanks + s == s;
    } else {
      assert blanks[0] in blanks && forall c <- blanks[1..] :: c in blanks;
      assert (blanks + s)[1..] == blanks[1..] + s;
      BlanksAreSkipped(blanks[1..], s);
    }
  }

  /** Blanks, an optional sign and decimal digits, with any text behind them, are read as the number. */
  lemma AtoiReadsNumber(blanks: string, sign: string, zeros: string, n: nat, tail: string)
    requires (forall c <- blanks :: IsBlank(c)) && sign in {"", "+", "-"} && (forall c <- zeros :: c == '0')
    requires tail == "" || !IsDigit(tail[0])
    ensures Atoi(blanks + (sign + (zeros + (Decimal(n) + tail)))) == (if sign == "-" then -1 else 1) * n
  {
    hide SkipBlanks, Digits;
    var digits := zeros + (Decimal(n) + tail);
    StartsWithDigit(zeros, n, tail);
    BlanksAreSkipped(blanks, sign + digits);
    LeadingZeros(zeros, Decimal(n) + tail);
    DigitsOfDecimal(n, tail);
    DigitsEnd(tail, n);
    if sign == "" { assert sign + digits == digits; } else { assert (sign + digits)[1..] == digits; }
  }

  lemma StartsWithDigit(zeros: string, n: nat, tail: string)
    requires forall c <- zeros :: c == '0'
    ensures var s := zeros + (Decimal(n) + tail); s != "" && IsDigit(s[0])
  {
    DecimalStarts(n);
    if zeros != "" { assert zeros[0] in zeros; }
  }

  lemma {:induction false} DecimalStarts(n: nat)
    ensures Decimal(n) != "" && IsDigit(Decimal(n)[0])
  {
    if n >= 10 { DecimalStarts(n / 10); }
  }

  lemma DigitsEnd(s: string, value: nat)
    requires s == "" || !IsDigit(s[0])
    ensures Digits(s, value) == value
  {
  }

  /** Without a digit behind blanks and sign the number is 0. */
  lemma AtoiWithoutDigits(blanks: string, sign: string, tail: string)
    requires (forall c <- blanks :: IsBlank(c)) && sign in {"", "+", "-"}
    requires tail == "" || (!IsDigit(tail[0]) && (sign == "" ==> !IsBlank(tail[0]) && tail[0] != '+' && tail[0] != '-'))
    ensures Atoi(blanks + (sign + tail)) == 0
  {
    hide SkipBlanks, Digits;
    BlanksAreSkipped(blanks, sign + tail);
    DigitsEnd(tail, 0);
    if sign == "" { assert sign + tail == tail; } else { assert (sign + tail)[1..] == tail; }
  }

  /** The switches a command can turn. */
  datatype Hud = Hud(noDisplay: bool, logging: bool, fcat: bool) {
    /** What a command means. */
    function After(m: Message): Hud {
      if CText(m.cmd) == "hud" then this.(noDisplay := !noDisplay)
      else if CText(m.cmd) == "logging" then
        if CText(m.param) == "" then this.(logging := !logging)
        else if Atoi(m.param) == 0 then this.(logging := false)
        else if Atoi(m.param) > 0 then this.(logging := true)
        else this
      else if CText(m.cmd) == "fcat" then this.(fcat := !fcat)
      else this
    }

    function AfterAll(ms: seq<Message>): Hud {
      if ms == [] then this else AfterAll(ms[..|ms| - 1]).After(ms[|ms| - 1])
    }
  }

  lemma {:induction false} AfterConcat(h: Hud, ms: seq<Message>, ns: seq<Message>)
    ensures h.AfterAll(ms + ns) == h.AfterAll(ms).AfterAll(ns)
    decreases |ns|
  {
    hide Hud.After;
    if ns == [] {
      assert ms + ns == ms;
    } else {
      assert (ms + ns)[..|ms + ns| - 1] == ms + ns[..|ns| - 1];
      AfterConcat(h, ms, ns[..|ns| - 1]);
    }
  }

  /** The terminating NUL is not part of the text. */
  lemma {:induction false} EndOfText(s: string)
    ensures CText(s + ['\0']) == CText(s)
    ensures CText(s) == "" <==> s == "" || s[0] == '\0'
    decreases |s|
  {
    if s != "" {
      EndOfText(s[1..]);
      assert (s + ['\0'])[1..] == s[1..] + ['\0'];
    }
  }

  lemma TextOf(buffer: seq<char>)
    requires buffer != [] && buffer[|buffer| - 1] == '\0'
    ensures CText(buffer) == CText(buffer[..|buffer| - 1])
    ensures CText(buffer) == "" <==> buffer[0] == '\0'
  {
    Last(buffer);
    EndOfText(buffer[..|buffer| - 1]);
  }

  lemma NameIs(cmd: seq<char>, literal: string)
    requires cmd != [] && cmd[|cmd| - 1] == '\0' && '\0' !in literal
    ensures SameUpTo(cmd, literal + ['\0'], |cmd|) <==> CText(cmd) == literal
  {
    Last(cmd);
    TextOf(cmd);
    MatchIsWhole(cmd[..|cmd| - 1], literal);
  }

  /** `atoi` reads no further than the end of the text. */
  lemma AtoiOfText(s: string)
    ensures Atoi(CText(s)) == Atoi(s)
  {
    hide Digits;
    BlanksOfText(s);
    var t := SkipBlanks(s);
    assert CText(t) != "" ==> t != "" && CText(t)[0] == t[0] && CText(t)[1..] == CText(t[1..]);
    hide SkipBlanks, CText;
    if t != "" { DigitsOfText(t[1..], 0); }
    DigitsOfText(t, 0);
    NoText(t);
  }

  lemma NoText(t: string)
    ensures CText(t) == "" ==> t == "" || (t[0] != '-' && t[0] != '+' && Digits(t, 0) == 0)
    ensures Digits("", 0) == 0
  {
  }

  lemma {:induction false} BlanksOfText(s: string)
    ensures SkipBlanks(CText(s)) == CText(SkipBlanks(s))
    decreases |s|
  {
    if s != "" && s[0] != '\0' {
      BlanksOfText(s[1..]);
      assert CText(s)[1..] == CText(s[1..]);
    }
  }

  lemma {:induction false} DigitsOfText(s: string, value: nat)
    ensures Digits(CText(s), value) == Digits(s, value)
    decreases |s|
  {
    if s != "" && IsDigit(s[0]) {
      DigitsOfText(s[1..], 10 * value + (s[0] as int - '0' as int));
      assert CText(s)[1..] == CText(s[1..]);
    }
  }

  /** `parse_command`; the lengths count the terminating NULs. */
  method ParseCommand(h: Hud, cmd: seq<char>, param: seq<char>) returns (r: Hud)
    requires |cmd| > 0 && |param| > 0 && cmd[|cmd| - 1] == '\0' && param[|param| - 1] == '\0'
    ensures r == h.After(Message(cmd[..|cmd| - 1], param[..|param| - 1]))
    ensures var name, value := CText(cmd), CText(param);
            && (r.noDisplay <==> if name == "hud" then !h.noDisplay else h.noDisplay)
            && (r.fcat <==> if name == "fcat" then !h.fcat else h.fcat)
            && (name != "logging" || Atoi(value) < 0 ==> (r.logging <==> h.logging))
            && (name == "logging" && value == "" ==> (r.logging <==> !h.logging))
            && (name == "logging" && value != "" && Atoi(value) == 0 ==> !r.logging)
            && (name == "logging" && value != "" && Atoi(value) > 0 ==> r.logging)
  {
    NameIs(cmd, "hud");
    NameIs(cmd, "logging");
    NameIs(cmd, "fcat");
    TextOf(cmd);
    TextOf(param);
    AtoiOfText(param[..|param| - 1]);
    hide Atoi, SameUpTo, CText;
    r := h;
    if SameUpTo(cmd, "hud" + ['\0'], |cmd|) {
      r := h.(noDisplay := !h.noDisplay);
    } else if SameUpTo(cmd, "logging" + ['\0'], |cmd|) {
      if param[0] != '\0' {
        var value := Atoi(param[..|param| - 1]);
        if value == 0 && h.logging {
          r := h.(logging := false);
        } else if value > 0 && !h.logging {
          r := h.(logging := true);
        }
      } else {
        r := h.(logging := !h.logging);
      }
    } else if SameUpTo(cmd, "fcat" + ['\0'], |cmd|) {
      r := h.(fcat := !h.fcat);
    }
  }

  // ------------------------------------------------------------------ the static variables

  class ControlParser {
    const cmd: array<char>
    const param: array<char>
    var cmdpos: nat
    var parampos: nat
    var readingCmd: bool
    var readingParam: bool
    var hud: Hud
    ghost const initial: Hud
    /** Every byte the process has ever received. */
    ghost var history: string

    ghost function Abs(): Parser
      reads this, cmd, param
      requires cmdpos <= cmd.Length && parampos <= param.Length
    {
      if readingCmd then Reading(cmd[..cmdpos], param[..parampos], readingParam) else Idle
    }

    /** The next write is in bounds. */
    ghost predicate InBounds()
      reads this
    {
      && cmd != param && cmd.Length == param.Length == BUFSIZE
      && cmdpos <= BUFSIZE && parampos <= BUFSIZE
      && (readingCmd ==> cmdpos < BUFSIZE && parampos < BUFSIZE)
      && (readingParam ==> readingCmd)
    }

    /** Every reachable state: in bounds, and the variables mean what the whole history says. */
    ghost predicate Valid()
      reads this, cmd, param
    {
      && InBounds()
      && Abs() == StateOf(history)
      && hud == initial.AfterAll(Commands(history))
    }

    constructor (h: Hud)
      ensures Valid() && fresh(cmd) && fresh(param)
      ensures history == "" && initial == h
    {
      cmd := new char[BUFSIZE];
      param := new char[BUFSIZE];
      cmdpos, parampos, readingCmd, readingParam := 0, 0, false, false;
      hud, initial, history := h, h, "";
    }

    /** `process_char`. */
    method ProcessChar(c: char)
      requires Valid()
      modifies this, cmd, param
      ensures Valid() && history == old(history) + [c]
    {
      hide StateOf, Commands, Hud.After, Hud.AfterAll;
      CharMeans(initial, history, c);
      match c {
        case ':' =>
          cmdpos, parampos := 0, 0;
          readingCmd, readingParam := true, false;
        case ';' =>
          if readingCmd {
            EndCommand();
          }
        case '=' =>
          if readingCmd {
            readingParam := true;
          }
        case _ =>
          if readingCmd {
            AddChar(c);
          }
      }
      history := history + [c];
    }

    /** The `;` case. */
    method EndCommand()
      requires InBounds() && readingCmd
      modifies this`cmdpos, this`parampos, this`readingCmd, this`readingParam, this`hud, cmd, param
      ensures InBounds() && Abs() == Idle
      ensures hud == old(hud.After(Message(cmd[..cmdpos], param[..parampos])))
    {
      hide Hud.After;
      cmd[cmdpos] := '\0';
      cmdpos := cmdpos + 1;
      param[parampos] := '\0';
      parampos := parampos + 1;
      assert cmd[..cmdpos][..cmdpos - 1] == old(cmd[..cmdpos]);
      assert param[..parampos][..parampos - 1] == old(param[..parampos]);
      hud := ParseCommand(hud, cmd[..cmdpos], param[..parampos]);
      readingCmd, readingParam := false, false;
    }

    /** The default case. */
    method AddChar(c: char)
      requires InBounds() && readingCmd && c !in {':', ';', '='}
      modifies this`cmdpos, this`parampos, this`readingCmd, this`readingParam, cmd, param
      ensures InBounds() && Abs() == old(Abs()).Step(c)
    {
      if readingParam {
        if parampos >= BUFSIZE - 1 {
          readingCmd, readingParam := false, false;
        } else {
          param[parampos] := c;
          parampos := parampos + 1;
          assert param[..parampos] == old(param[..parampos]) + [c];
        }
      } else {
        if cmdpos >= BUFSIZE - 1 {
          readingCmd := false;
        } else {
          cmd[cmdpos] := c;
          cmdpos := cmdpos + 1;
          assert cmd[..cmdpos] == old(cmd[..cmdpos]) + [c];
        }
      }
    }

    /** The loop over one received block. */
    method ProcessBlock(block: string)
      requires Valid()
      modifies this, cmd, param
      ensures Valid() && history == old(history) + block
    {
      hide ControlParser.Valid;
      for i := 0 to |block|
        invariant Valid() && history == old(history) + block[..i]
      {
        ProcessChar(block[i]);
        assert block[..i + 1] == block[..i] + [block[i]];
      }
      assert block[..|block|] == block;
    }

    /** `process_control_socket`: `recvs` is what the socket answers in turn. */
    method ProcessControlSocket(connected: bool, recvs: seq<Received>) returns (stillConnected: bool)
      requires Valid() && forall r <- recvs :: r.Data? ==> 0 < |r.bytes| <= BUFSIZE
      modifies this, cmd, param
      ensures Valid()
      ensures history == old(history) + (if connected then Taken(recvs) else "")
      ensures stillConnected == (connected && !Disconnected(recvs))
    {
      hide ControlParser.Valid;
      stillConnected := connected;
      if !connected {
        return;
      }
      var rest := recvs;
      while rest != []
        invariant Valid() && stillConnected
        invariant forall r <- rest :: r.Data? ==> 0 < |r.bytes| <= BUFSIZE
        invariant history + Taken(rest) == old(history) + Taken(recvs)
        invariant Disconnected(rest) == Disconnected(recvs)
        decreases |rest|
      {
        var r := rest[0];
        assert r in rest && forall q <- rest[1..] :: q in rest;
        match r {
          case WouldBlock =>
            break;
          case Failed =>
            stillConnected := false;
            return;
          case Closed =>
            stillConnected := false;
            return;
          case Data(bytes) =>
            ProcessBlock(bytes);
            rest := rest[1..];
            if |bytes| < BUFSIZE {
              break;
            }
        }
      }
    }
  }

  /** An answer of the socket; no further answer means nothing to read. */
  datatype Received = Data(bytes: string) | WouldBlock | Failed | Closed

  /** The bytes one call takes: full blocks and the first block that is not full. */
  function Taken(recvs: seq<Received>): string {
    if recvs == [] || !recvs[0].Data? then ""
    else if |recvs[0].bytes| < BUFSIZE then recvs[0].bytes
    else recvs[0].bytes + Taken(recvs[1..])
  }

  /** Does the call meet an error or the end of the connection? */
  predicate Disconnected(recvs: seq<Received>) {
    recvs != [] &&
    if recvs[0].Data? then |recvs[0].bytes| == BUFSIZE && Disconnected(recvs[1..]) else !recvs[0].WouldBlock?
  }

  function BytesOf(recvs: seq<Received>): string {
    if recvs == [] then ""
    else (if recvs[0].Data? then recvs[0].bytes else "") + BytesOf(recvs[1..])
  }

  predicate IsFull(r: Received) {
    r.Data? && |r.bytes| == BUFSIZE
  }

  /** The first `m` answers are full blocks and the next one, if any, is not: these are taken, the next one
      too if it is a block; the connection ends exactly when the next one is an error or a close. */
  lemma {:induction false} TakenIs(recvs: seq<Received>, m: nat)
    requires m <= |recvs| && forall r <- recvs :: r.Data? ==> 0 < |r.bytes| <= BUFSIZE
    requires (forall i :: 0 <= i < m ==> IsFull(recvs[i])) && (m < |recvs| ==> !IsFull(recvs[m]))
    ensures Taken(recvs) == BytesOf(recvs[..m]) + if m < |recvs| && recvs[m].Data? then recvs[m].bytes else ""
    ensures Disconnected(recvs) <==> m < |recvs| && (recvs[m].Failed? || recvs[m].Closed?)
    decreases m
  {
    hide Taken, Disconnected, BytesOf;
    if m > 0 {
      assert IsFull(recvs[0]);
      First(recvs);
      TakenIs(recvs[1..], m - 1);
      TakeMore(recvs, m - 1);
      MoreBytes(recvs[0], recvs[1..][..m - 1]);
      FullFirst(recvs);
      JoinAssociates(recvs[0].bytes, BytesOf(recvs[1..][..m - 1]),
                     if m < |recvs| && recvs[m].Data? then recvs[m].bytes else "");
    } else {
      TakenAtOnce(recvs);
    }
  }

  lemma TakenAtOnce(recvs: seq<Received>)
    requires recvs != [] ==> !IsFull(recvs[0]) && (recvs[0].Data? ==> |recvs[0].bytes| <= BUFSIZE)
    ensures Taken(recvs) == BytesOf(recvs[..0]) + if recvs != [] && recvs[0].Data? then recvs[0].bytes else ""
    ensures Disconnected(recvs) <==> recvs != [] && (recvs[0].Failed? || recvs[0].Closed?)
  {
    assert recvs[..0] == [];
  }

  lemma MoreBytes(r: Received, rs: seq<Received>)
    ensures BytesOf([r] + rs) == (if r.Data? then r.bytes else "") + BytesOf(rs)
  {
    assert ([r] + rs)[1..] == rs;
  }

  lemma FullFirst(recvs: seq<Received>)
    requires recvs != [] && IsFull(recvs[0])
    ensures Taken(recvs) == recvs[0].bytes + Taken(recvs[1..]) && Disconnected(recvs) == Disconnected(recvs[1..])
  {
  }

  /** What one more byte of the stream means for the parser and for the switches. */
  lemma CharMeans(initial: Hud, s: string, c: char)
    ensures StateOf(s + [c]) == StateOf(s).Step(c)
    ensures initial.AfterAll(Commands(s + [c])) ==
            var h, p := initial.AfterAll(Commands(s)), StateOf(s);
            if c == ';' && p.Reading? then h.After(Message(p.cmd, p.param)) else h
  {
    hide StateOf, CommandBehind, Hud.After;
    StepFollowsStream(s, c);
    CommandsGrow(s, c);
    hide Hud.AfterAll, Commands;
    AfterConcat(initial, Commands(s), StateOf(s).Dispatched(c));
    AfterOne(initial.AfterAll(Commands(s)), StateOf(s).Dispatched(c));
  }

  lemma CommandsGrow(s: string, c: char)
    ensures Commands(s + [c]) == Commands(s) + if c == ';' then CommandBehind(s) else []
  {
  }

  lemma AfterOne(h: Hud, ms: seq<Message>)
    requires |ms| <= 1
    ensures h.AfterAll(ms) == if ms == [] then h else h.After(ms[0])
  {
  }
}
